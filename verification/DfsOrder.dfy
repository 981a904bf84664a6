/** The depth-first search as a recursion, which the search with a stack of cursors (IR/cfg.c)
    refines, and what its first list looks like. */
module DfsOrder {
  import opened Cfg

  /** The blocks visited, the order in which they were met, and the order in which they were
      left, last first. */
  datatype Visit = Visit(visited: set<nat>, pre: seq<nat>, rpo: seq<nat>)

  ghost predicate EdgesOf(g: Graph, edges: seq<nat>) {
    forall k :: 0 <= k < |edges| ==> edges[k] < |g.edges|
  }

  lemma DestNormal(g: Graph, e: nat)
    requires g.Valid() && e < |g.edges| && g.edges[e].dest != g.exit
    ensures g.Normal(g.edges[e].dest) && EdgesOf(g, g.succs[g.edges[e].dest])
  {
    hide Graph.ListsDistinct;
    assert e in g.preds[g.edges[e].dest];
  }

  /** Follow the edges one after the other, each as far as it goes. */
  ghost function Search(g: Graph, visited: set<nat>, edges: seq<nat>): (r: Visit)
    requires g.Valid() && EdgesOf(g, edges) && visited <= g.NormalBlocks()
    ensures visited <= r.visited <= g.NormalBlocks()
    decreases g.NormalBlocks() - visited, |edges|
  {
    if edges == [] then Visit(visited, [], [])
    else
      var d := g.edges[edges[0]].dest;
      if d == g.exit || d in visited then Search(g, visited, edges[1..])
      else
        DestNormal(g, edges[0]);
        assert g.NormalBlocks() - (visited + {d}) < g.NormalBlocks() - visited by {
          assert d in g.NormalBlocks() - visited;
        }
        var inner := Search(g, visited + {d}, g.succs[d]);
        assert g.NormalBlocks() - inner.visited < g.NormalBlocks() - visited by {
          assert d in g.NormalBlocks() - visited && d in inner.visited;
        }
        var rest := Search(g, inner.visited, edges[1..]);
        Visit(rest.visited, [d] + inner.pre + rest.pre, rest.rpo + [d] + inner.rpo)
  }

  // ---------- the first list ----------

  /** The walk meets no block of the set, its start included. */
  ghost predicate Avoids(g: Graph, s: set<nat>, u: nat, es: seq<nat>) {
    u !in s && forall i :: 0 <= i < |es| ==> es[i] < |g.edges| && g.edges[es[i]].dest !in s
  }

  ghost predicate ReachesAround(g: Graph, s: set<nat>, u: nat, v: nat) {
    exists es :: g.Walk(u, es, v) && Avoids(g, s, u, es)
  }

  lemma {:induction false} VisitedIs(g: Graph, visited: set<nat>, edges: seq<nat>)
    requires g.Valid() && EdgesOf(g, edges) && visited <= g.NormalBlocks()
    ensures var r := Search(g, visited, edges);
            && (forall x :: x in r.visited <==> x in visited || x in r.pre)
            && (forall x :: x in r.pre ==> x !in visited && x in g.NormalBlocks())
    decreases g.NormalBlocks() - visited, |edges|
  {
    if edges != [] {
      var d := g.edges[edges[0]].dest;
      if d == g.exit || d in visited {
        VisitedIs(g, visited, edges[1..]);
      } else {
        DestNormal(g, edges[0]);
        assert d in g.NormalBlocks() - visited;
        var inner := Search(g, visited + {d}, g.succs[d]);
        VisitedIs(g, visited + {d}, g.succs[d]);
        VisitedIs(g, inner.visited, edges[1..]);
      }
    }
  }

  /** What a search has met it has also followed. */
  lemma {:induction false} Followed(g: Graph, visited: set<nat>, edges: seq<nat>)
    requires g.Valid() && EdgesOf(g, edges) && visited <= g.NormalBlocks()
    ensures var r := Search(g, visited, edges);
            && (forall k :: 0 <= k < |edges| ==>
                 g.edges[edges[k]].dest == g.exit || g.edges[edges[k]].dest in r.visited)
            && (forall e :: 0 <= e < |g.edges| && g.edges[e].src in r.pre ==>
                  g.edges[e].dest == g.exit || g.edges[e].dest in r.visited)
    decreases g.NormalBlocks() - visited, |edges|
  {
    hide Graph.ListsDistinct;
    if edges != [] {
      var d := g.edges[edges[0]].dest;
      var r := Search(g, visited, edges);
      if d == g.exit || d in visited {
        Followed(g, visited, edges[1..]);
        EdgesSplit(g, edges, r.visited);
      } else {
        DestNormal(g, edges[0]);
        assert d in g.NormalBlocks() - visited;
        var inner := Search(g, visited + {d}, g.succs[d]);
        Followed(g, visited + {d}, g.succs[d]);
        Followed(g, inner.visited, edges[1..]);
        EdgesSplit(g, edges, r.visited);
        forall e | 0 <= e < |g.edges| && g.edges[e].src in r.pre
          ensures g.edges[e].dest == g.exit || g.edges[e].dest in r.visited
        {
          if g.edges[e].src == d {
            assert e in g.succs[d];
          }
        }
      }
    }
  }

  lemma EdgesSplit(g: Graph, edges: seq<nat>, s: set<nat>)
    requires edges != [] && EdgesOf(g, edges)
    requires g.edges[edges[0]].dest == g.exit || g.edges[edges[0]].dest in s
    requires forall k :: 0 <= k < |edges[1..]| ==>
               g.edges[edges[1..][k]].dest == g.exit || g.edges[edges[1..][k]].dest in s
    ensures forall k :: 0 <= k < |edges| ==> g.edges[edges[k]].dest == g.exit || g.edges[edges[k]].dest in s
  {
    forall k | 0 <= k < |edges| ensures g.edges[edges[k]].dest == g.exit || g.edges[edges[k]].dest in s {
      assert k > 0 ==> edges[1..][k - 1] == edges[k];
    }
  }

  /** The i-th block is entered by an edge of the start or from a block before it. */
  ghost predicate EnteredAt(g: Graph, edges: seq<nat>, pre: seq<nat>, i: nat) {
    i < |pre| &&
    exists e :: 0 <= e < |g.edges| && g.edges[e].dest == pre[i] && (e in edges || g.edges[e].src in pre[..i])
  }

  ghost predicate Entered(g: Graph, edges: seq<nat>, pre: seq<nat>) {
    forall i: nat :: i < |pre| ==> EnteredAt(g, edges, pre, i)
  }

  lemma ShiftEntered(g: Graph, few: seq<nat>, edges: seq<nat>, front: seq<nat>, mid: seq<nat>, i: nat)
    requires EnteredAt(g, few, mid, i) && forall e :: e in few ==> e in edges
    ensures EnteredAt(g, edges, front + mid, |front| + i)
  {
    var all := front + mid;
    var e :| 0 <= e < |g.edges| && g.edges[e].dest == mid[i] && (e in few || g.edges[e].src in mid[..i]);
    assert all[..|front| + i] == front + mid[..i];
    assert all[|front| + i] == mid[i];
  }

  lemma BelowEntered(g: Graph, edges: seq<nat>, d: nat, inner: seq<nat>, rest: seq<nat>, i: nat)
    requires g.Valid() && d < g.blocks && EnteredAt(g, g.succs[d], inner, i)
    ensures EnteredAt(g, edges, [d] + inner + rest, 1 + i)
  {
    hide Graph.ListsDistinct;
    var all := [d] + inner + rest;
    var e :| 0 <= e < |g.edges| && g.edges[e].dest == inner[i] && (e in g.succs[d] || g.edges[e].src in inner[..i]);
    assert all[..1 + i] == [d] + inner[..i];
    assert all[1 + i] == inner[i];
    assert ([d] + inner[..i])[0] == d;
  }

  lemma {:induction false} EnteredInOrder(g: Graph, visited: set<nat>, edges: seq<nat>)
    requires g.Valid() && EdgesOf(g, edges) && visited <= g.NormalBlocks()
    ensures Entered(g, edges, Search(g, visited, edges).pre)
    decreases g.NormalBlocks() - visited, |edges|
  {
    hide EnteredAt, Entered, Graph.ListsDistinct;
    if edges == [] {
      NoneEntered(g);
    } else {
      var d := g.edges[edges[0]].dest;
      if d == g.exit || d in visited {
        EnteredInOrder(g, visited, edges[1..]);
        EnteredMore(g, edges, Search(g, visited, edges[1..]).pre);
      } else {
        DestNormal(g, edges[0]);
        assert d in g.NormalBlocks() - visited;
        var inner := Search(g, visited + {d}, g.succs[d]);
        var rest := Search(g, inner.visited, edges[1..]);
        EnteredInOrder(g, visited + {d}, g.succs[d]);
        EnteredInOrder(g, inner.visited, edges[1..]);
        EnteredParts(g, edges, d, inner.pre, rest.pre);
      }
    }
  }

  lemma NoneEntered(g: Graph)
    ensures Entered(g, [], [])
  {
  }

  lemma EnteredMore(g: Graph, edges: seq<nat>, pre: seq<nat>)
    requires edges != [] && Entered(g, edges[1..], pre)
    ensures Entered(g, edges, pre)
  {
    hide EnteredAt;
    forall i: nat | i < |pre| ensures EnteredAt(g, edges, pre, i) {
      ShiftEntered(g, edges[1..], edges, [], pre, i);
      assert [] + pre == pre;
    }
  }

  lemma EnteredParts(g: Graph, edges: seq<nat>, d: nat, inner: seq<nat>, rest: seq<nat>)
    requires g.Valid() && EdgesOf(g, edges) && edges != [] && g.edges[edges[0]].dest == d && d < g.blocks
    requires Entered(g, g.succs[d], inner) && Entered(g, edges[1..], rest)
    ensures Entered(g, edges, [d] + inner + rest)
  {
    var all := [d] + inner + rest;
    FirstEntered(g, edges, d, inner + rest);
    assert [d] + (inner + rest) == all;
    hide EnteredAt;
    forall i: nat | i < |all| ensures EnteredAt(g, edges, all, i) {
      if 0 < i <= |inner| {
        BelowEntered(g, edges, d, inner, rest, i - 1);
      } else if i > |inner| {
        ShiftEntered(g, edges[1..], edges, [d] + inner, rest, i - 1 - |inner|);
      }
    }
  }

  lemma FirstEntered(g: Graph, edges: seq<nat>, d: nat, rest: seq<nat>)
    requires EdgesOf(g, edges) && edges != [] && g.edges[edges[0]].dest == d
    ensures EnteredAt(g, edges, [d] + rest, 0)
  {
    assert edges[0] in edges;
  }

  function Members(s: seq<nat>): set<nat> {
    set y | y in s
  }

  /** The blocks first reached from b follow it, all of them and nothing else: those that a
      walk from b comes to that meets nothing listed before b. */
  ghost predicate Below(g: Graph, visited: set<nat>, pre: seq<nat>, i: nat, m: nat) {
    && i < m <= |pre|
    && forall x: nat :: x in pre[i..m] <==>
         g.Normal(x) && ReachesAround(g, visited + Members(pre[..i]), pre[i], x)
  }

  lemma {:induction false} StaysInside(g: Graph, visited: set<nat>, r: Visit, d: nat, es: seq<nat>, x: nat)
    requires g.Valid() && d in r.pre && g.Walk(d, es, x) && Avoids(g, visited, d, es) && g.Normal(x)
    requires forall y :: y in r.visited <==> y in visited || y in r.pre
    requires forall e :: 0 <= e < |g.edges| && g.edges[e].src in r.pre ==>
               g.edges[e].dest == g.exit || g.edges[e].dest in r.visited
    ensures x in r.pre
    decreases |es|
  {
    hide Graph.ListsDistinct;
    if es != [] {
      var e := es[|es| - 1];
      var p := g.edges[e].src;
      assert e in g.succs[p];
      if p == d {
        assert p in r.pre;
      } else {
        assert es[..|es| - 1] != [];
        var e0 := es[|es| - 2];
        assert es[..|es| - 1][|es| - 2] == e0 && g.edges[e0].dest == p && e0 in g.preds[p];
        assert g.Normal(p);
        assert forall i :: 0 <= i < |es| - 1 ==> es[..|es| - 1][i] == es[i];
        StaysInside(g, visited, r, d, es[..|es| - 1], p);
      }
    }
  }

  lemma AroundMore(g: Graph, s: set<nat>, t: set<nat>, e: nat, x: nat)
    requires e < |g.edges| && ReachesAround(g, t, g.edges[e].dest, x) && s <= t && g.edges[e].src !in s
    ensures ReachesAround(g, s, g.edges[e].src, x)
  {
    var es :| g.Walk(g.edges[e].dest, es, x) && Avoids(g, t, g.edges[e].dest, es);
    var u := g.edges[e].src;
    WalkStep(g, u, [], e);
    assert [] + [e] == [e];
    WalkConcat(g, u, [e], g.edges[e].dest, es, x);
    assert Avoids(g, s, u, [e] + es);
  }

  lemma AroundLess(g: Graph, s: set<nat>, t: set<nat>, u: nat, x: nat)
    requires ReachesAround(g, t, u, x) && s <= t
    ensures ReachesAround(g, s, u, x)
  {
    var es :| g.Walk(u, es, x) && Avoids(g, t, u, es);
    assert Avoids(g, s, u, es);
  }

  /** A search meets only what it can walk to. */
  lemma {:induction false} MetAround(g: Graph, visited: set<nat>, edges: seq<nat>, x: nat)
    requires g.Valid() && EdgesOf(g, edges) && visited <= g.NormalBlocks() && x in Search(g, visited, edges).pre
    ensures exists e :: e in edges && e < |g.edges| && ReachesAround(g, visited, g.edges[e].dest, x)
    decreases g.NormalBlocks() - visited, |edges|
  {
    hide Graph.ListsDistinct;
    var d := g.edges[edges[0]].dest;
    if d == g.exit || d in visited {
      MetAround(g, visited, edges[1..], x);
    } else {
      DestNormal(g, edges[0]);
      assert d in g.NormalBlocks() - visited;
      var inner := Search(g, visited + {d}, g.succs[d]);
      if x == d {
        assert g.Walk(d, [], d) && Avoids(g, visited, d, []);
        assert edges[0] in edges;
      } else if x in inner.pre {
        MetAround(g, visited + {d}, g.succs[d], x);
        var e :| e in g.succs[d] && e < |g.edges| && ReachesAround(g, visited + {d}, g.edges[e].dest, x);
        AroundMore(g, visited, visited + {d}, e, x);
        assert edges[0] in edges;
      } else {
        MetAround(g, inner.visited, edges[1..], x);
        var e :| e in edges[1..] && e < |g.edges| && ReachesAround(g, inner.visited, g.edges[e].dest, x);
        AroundLess(g, visited, inner.visited, g.edges[e].dest, x);
      }
    }
  }

  lemma MetBelow(g: Graph, visited: set<nat>, d: nat, x: nat)
    requires g.Valid() && visited + {d} <= g.NormalBlocks() && d !in visited && EdgesOf(g, g.succs[d])
    requires x in [d] + Search(g, visited + {d}, g.succs[d]).pre
    ensures ReachesAround(g, visited, d, x)
  {
    hide Search, Graph.ListsDistinct;
    if x == d {
      assert g.Walk(d, [], d) && Avoids(g, visited, d, []);
    } else {
      MetAround(g, visited + {d}, g.succs[d], x);
      var e :| e in g.succs[d] && e < |g.edges| && ReachesAround(g, visited + {d}, g.edges[e].dest, x);
      AroundMore(g, visited, visited + {d}, e, x);
    }
  }

  lemma AroundMet(g: Graph, visited: set<nat>, d: nat, x: nat)
    requires g.Valid() && visited + {d} <= g.NormalBlocks() && EdgesOf(g, g.succs[d])
    requires g.Normal(x) && ReachesAround(g, visited, d, x)
    ensures x in [d] + Search(g, visited + {d}, g.succs[d]).pre
  {
    hide Search, Graph.Walk, Avoids;
    var r := Search(g, visited + {d}, g.succs[d]);
    var es :| g.Walk(d, es, x) && Avoids(g, visited, d, es);
    VisitedIs(g, visited + {d}, g.succs[d]);
    Followed(g, visited + {d}, g.succs[d]);
    LeavesFollowed(g, visited, r, d);
    StaysInside(g, visited, Visit(r.visited, [d] + r.pre, []), d, es, x);
  }

  /** The block d and what the search below it meets. */
  lemma FirstBelow(g: Graph, visited: set<nat>, d: nat, rest: seq<nat>)
    requires g.Valid() && visited <= g.NormalBlocks() && g.Normal(d) && d !in visited && EdgesOf(g, g.succs[d])
    ensures visited + {d} <= g.NormalBlocks()
    ensures var inner := Search(g, visited + {d}, g.succs[d]).pre;
            Below(g, visited, [d] + inner + rest, 0, 1 + |inner|)
  {
    hide Search, ReachesAround, Graph.ListsDistinct;
    var r := Search(g, visited + {d}, g.succs[d]);
    var all := [d] + r.pre + rest;
    assert all[0..1 + |r.pre|] == [d] + r.pre;
    assert visited + Members(all[..0]) == visited;
    VisitedIs(g, visited + {d}, g.succs[d]);
    forall x: nat ensures x in [d] + r.pre <==> g.Normal(x) && ReachesAround(g, visited, d, x) {
      if x in [d] + r.pre {
        MetBelow(g, visited, d, x);
      } else if g.Normal(x) && ReachesAround(g, visited, d, x) {
        AroundMet(g, visited, d, x);
      }
    }
  }

  lemma LeavesFollowed(g: Graph, visited: set<nat>, r: Visit, d: nat)
    requires g.Valid() && d < g.blocks && EdgesOf(g, g.succs[d])
    requires forall x :: x in r.visited <==> x in visited + {d} || x in r.pre
    requires forall k :: 0 <= k < |g.succs[d]| ==>
               g.edges[g.succs[d][k]].dest == g.exit || g.edges[g.succs[d][k]].dest in r.visited
    requires forall e :: 0 <= e < |g.edges| && g.edges[e].src in r.pre ==>
               g.edges[e].dest == g.exit || g.edges[e].dest in r.visited
    ensures forall y :: y in r.visited <==> y in visited || y in [d] + r.pre
    ensures forall e :: 0 <= e < |g.edges| && g.edges[e].src in [d] + r.pre ==>
              g.edges[e].dest == g.exit || g.edges[e].dest in r.visited
  {
    hide Graph.ListsDistinct;
    forall e | 0 <= e < |g.edges| && g.edges[e].src in [d] + r.pre
      ensures g.edges[e].dest == g.exit || g.edges[e].dest in r.visited
    {
      if g.edges[e].src == d {
        assert e in g.succs[d];
        var k :| 0 <= k < |g.succs[d]| && g.succs[d][k] == e;
      }
    }
  }

  lemma ShiftBelow(g: Graph, visited: set<nat>, s: set<nat>, front: seq<nat>, mid: seq<nat>, back: seq<nat>, i: nat,
                   m: nat)
    requires Below(g, s, mid, i, m) && s == visited + Members(front)
    ensures Below(g, visited, front + mid + back, |front| + i, |front| + m)
  {
    var all := front + mid + back;
    assert all[|front| + i..|front| + m] == mid[i..m];
    assert all[..|front| + i] == front + mid[..i];
    assert visited + Members(all[..|front| + i]) == s + Members(mid[..i]);
    assert all[|front| + i] == mid[i];
  }

  lemma InnerBelow(g: Graph, visited: set<nat>, d: nat, inner: seq<nat>, rest: seq<nat>, i: nat, m: nat)
    requires Below(g, visited + {d}, inner, i, m)
    ensures Below(g, visited, [d] + inner + rest, 1 + i, 1 + m)
  {
    assert visited + {d} == visited + Members([d]);
    ShiftBelow(g, visited, visited + {d}, [d], inner, rest, i, m);
  }

  lemma RestBelow(g: Graph, visited: set<nat>, s: set<nat>, d: nat, inner: seq<nat>, rest: seq<nat>, i: nat, m: nat)
    requires Below(g, s, rest, i, m) && forall x :: x in s <==> x in visited || x == d || x in inner
    ensures Below(g, visited, [d] + inner + rest, 1 + |inner| + i, 1 + |inner| + m)
  {
    assert s == visited + Members([d] + inner);
    ShiftBelow(g, visited, s, [d] + inner, rest, [], i, m);
    assert ([d] + inner) + rest + [] == [d] + inner + rest;
  }

  /** The white-path property of a depth-first search. */
  lemma {:induction false} BelowFollows(g: Graph, visited: set<nat>, edges: seq<nat>, i: nat) returns (m: nat)
    requires g.Valid() && EdgesOf(g, edges) && visited <= g.NormalBlocks() && i < |Search(g, visited, edges).pre|
    ensures Below(g, visited, Search(g, visited, edges).pre, i, m)
    decreases g.NormalBlocks() - visited, |edges|
  {
    hide Below, Graph.ListsDistinct;
    var d := g.edges[edges[0]].dest;
    if d == g.exit || d in visited {
      m := BelowFollows(g, visited, edges[1..], i);
    } else {
      DestNormal(g, edges[0]);
      assert d in g.NormalBlocks() - visited;
      var inner := Search(g, visited + {d}, g.succs[d]);
      var rest := Search(g, inner.visited, edges[1..]);
      if i == 0 {
        FirstBelow(g, visited, d, rest.pre);
        m := 1 + |inner.pre|;
      } else if i <= |inner.pre| {
        m := BelowFollows(g, visited + {d}, g.succs[d], i - 1);
        InnerBelow(g, visited, d, inner.pre, rest.pre, i - 1, m);
        m := 1 + m;
      } else {
        m := BelowFollows(g, inner.visited, edges[1..], i - 1 - |inner.pre|);
        VisitedIs(g, visited + {d}, g.succs[d]);
        RestBelow(g, visited, inner.visited, d, inner.pre, rest.pre, i - 1 - |inner.pre|, m);
        m := 1 + |inner.pre| + m;
      }
    }
  }

  ghost predicate BelowSome(g: Graph, pre: seq<nat>, i: nat) {
    exists m: nat :: Below(g, {}, pre, i, m)
  }

  /** A depth-first pre-order of what the entry block reaches. */
  ghost predicate DepthFirst(g: Graph, pre: seq<nat>)
    requires g.Valid()
  {
    && Entered(g, g.succs[g.entry], pre)
    && forall i: nat :: i < |pre| ==> BelowSome(g, pre, i)
  }

  lemma SearchIsDepthFirst(g: Graph)
    requires g.Valid()
    ensures EdgesOf(g, g.succs[g.entry]) && DepthFirst(g, Search(g, {}, g.succs[g.entry]).pre)
  {
    hide Search, Entered, Below, Graph.ListsDistinct;
    var edges := g.succs[g.entry];
    assert EdgesOf(g, edges);
    EnteredInOrder(g, {}, edges);
    var pre := Search(g, {}, edges).pre;
    forall i: nat | i < |pre| ensures BelowSome(g, pre, i) {
      var m := BelowFollows(g, {}, edges, i);
    }
  }

  // ---------- the same search with a stack of cursors ----------

  /** A position in the edge list of a block: the cursor the C code keeps as a list node. */
  datatype Cursor = Cursor(block: nat, next: nat)

  ghost predicate CursorsOf(g: Graph, stack: seq<Cursor>)
    requires g.Valid()
  {
    forall i :: 0 <= i < |stack| ==> stack[i].block < g.blocks && stack[i].next <= |g.succs[stack[i].block]|
  }

  lemma RestOfEdges(g: Graph, c: Cursor)
    requires g.Valid() && c.block < g.blocks && c.next <= |g.succs[c.block]|
    ensures EdgesOf(g, g.succs[c.block][c.next..])
  {
    hide Graph.ListsDistinct;
  }

  /** What is left to be done with a stack: the block of each cursor is left when its edges
      have been followed; the entry block is not listed. */
  ghost function Rest(g: Graph, stack: seq<Cursor>, visited: set<nat>): (r: Visit)
    requires g.Valid() && CursorsOf(g, stack) && visited <= g.NormalBlocks()
    decreases |stack|
  {
    if stack == [] then Visit(visited, [], [])
    else
      var c := stack[|stack| - 1];
      RestOfEdges(g, c);
      var top := Search(g, visited, g.succs[c.block][c.next..]);
      var below := Rest(g, stack[..|stack| - 1], top.visited);
      Visit(below.visited, top.pre + below.pre, below.rpo + Left(g, c.block) + top.rpo)
  }

  ghost function Left(g: Graph, b: nat): seq<nat> {
    if b == g.entry then [] else [b]
  }

  lemma RestStart(g: Graph)
    requires g.Valid()
    ensures EdgesOf(g, g.succs[g.entry])
    ensures var r := Search(g, {}, g.succs[g.entry]);
            Rest(g, [Cursor(g.entry, 0)], {}) == Visit(r.visited, r.pre, r.rpo)
  {
    hide Search;
    RestOfEdges(g, Cursor(g.entry, 0));
    assert g.succs[g.entry][0..] == g.succs[g.entry];
    assert [Cursor(g.entry, 0)][..0] == [];
  }

  /** The edge under the cursor leads nowhere new. */
  lemma SkipEdge(g: Graph, visited: set<nat>, edges: seq<nat>)
    requires g.Valid() && EdgesOf(g, edges) && visited <= g.NormalBlocks() && edges != []
    requires g.edges[edges[0]].dest == g.exit || g.edges[edges[0]].dest in visited
    ensures Search(g, visited, edges) == Search(g, visited, edges[1..])
  {
  }

  lemma RestAdvance(g: Graph, stack: seq<Cursor>, visited: set<nat>, c: Cursor)
    requires g.Valid() && CursorsOf(g, stack + [c]) && visited <= g.NormalBlocks()
    requires c.block < g.blocks && c.next < |g.succs[c.block]|
    requires var d := g.edges[g.succs[c.block][c.next]].dest; d == g.exit || d in visited
    ensures CursorsOf(g, stack + [Cursor(c.block, c.next + 1)])
    ensures Rest(g, stack + [Cursor(c.block, c.next + 1)], visited) == Rest(g, stack + [c], visited)
  {
    hide Search, Graph.ListsDistinct;
    var edges := g.succs[c.block][c.next..];
    RestOfEdges(g, c);
    SkipEdge(g, visited, edges);
    assert edges[1..] == g.succs[c.block][c.next + 1..];
    assert (stack + [c])[..|stack|] == stack;
    assert (stack + [Cursor(c.block, c.next + 1)])[..|stack|] == stack;
  }

  lemma RestPop(g: Graph, stack: seq<Cursor>, visited: set<nat>, c: Cursor)
    requires g.Valid() && CursorsOf(g, stack + [c]) && visited <= g.NormalBlocks()
    requires c.block < g.blocks && c.next == |g.succs[c.block]|
    ensures CursorsOf(g, stack)
    ensures var r := Rest(g, stack, visited);
            Rest(g, stack + [c], visited) == Visit(r.visited, r.pre, r.rpo + Left(g, c.block))
  {
    hide Graph.ListsDistinct;
    assert g.succs[c.block][c.next..] == [];
    assert (stack + [c])[|stack|] == c;
    assert (stack + [c])[..|stack|] == stack;
  }

  /** The edge under the cursor leads to a new block, whose edges come first. */
  lemma NewEdge(g: Graph, visited: set<nat>, edges: seq<nat>, d: nat)
    requires g.Valid() && EdgesOf(g, edges) && visited <= g.NormalBlocks() && edges != []
    requires d == g.edges[edges[0]].dest && d != g.exit && d !in visited
    ensures g.Normal(d) && EdgesOf(g, g.succs[d]) && visited + {d} <= g.NormalBlocks()
    ensures var inner := Search(g, visited + {d}, g.succs[d]);
            var rest := Search(g, inner.visited, edges);
            Search(g, visited, edges) == Visit(rest.visited, [d] + inner.pre + rest.pre, rest.rpo + [d] + inner.rpo)
  {
    DestNormal(g, edges[0]);
    assert d in g.NormalBlocks() - visited;
    var inner := Search(g, visited + {d}, g.succs[d]);
    SkipEdge(g, inner.visited, edges);
  }

  lemma RestTop(g: Graph, stack: seq<Cursor>, visited: set<nat>, c: Cursor)
    requires g.Valid() && CursorsOf(g, stack + [c]) && visited <= g.NormalBlocks() && c.block < g.blocks
    requires c.next <= |g.succs[c.block]|
    ensures CursorsOf(g, stack) && EdgesOf(g, g.succs[c.block][c.next..])
    ensures var top := Search(g, visited, g.succs[c.block][c.next..]);
            var below := Rest(g, stack, top.visited);
            Rest(g, stack + [c], visited) ==
            Visit(below.visited, top.pre + below.pre, below.rpo + Left(g, c.block) + top.rpo)
  {
    hide Search, Graph.ListsDistinct;
    RestOfEdges(g, c);
    assert (stack + [c])[|stack|] == c;
    assert (stack + [c])[..|stack|] == stack;
    assert forall i :: 0 <= i < |stack| ==> (stack + [c])[i] == stack[i];
  }

  lemma DiscoverFacts(g: Graph, stack: seq<Cursor>, c: Cursor, d: nat)
    requires g.Valid() && CursorsOf(g, stack + [c]) && g.Normal(d)
    ensures CursorsOf(g, stack + [c] + [Cursor(d, 0)]) && Left(g, d) == [d] && d < g.blocks
  {
    hide Graph.ListsDistinct;
  }

  lemma RestDiscover(g: Graph, stack: seq<Cursor>, visited: set<nat>, c: Cursor, d: nat)
    requires g.Valid() && CursorsOf(g, stack + [c]) && visited <= g.NormalBlocks()
    requires c.block < g.blocks && c.next < |g.succs[c.block]|
    requires d == g.edges[g.succs[c.block][c.next]].dest && d != g.exit && d !in visited
    ensures visited + {d} <= g.NormalBlocks() && CursorsOf(g, stack + [c] + [Cursor(d, 0)])
    ensures var r := Rest(g, stack + [c] + [Cursor(d, 0)], visited + {d});
            Rest(g, stack + [c], visited) == Visit(r.visited, [d] + r.pre, r.rpo)
  {
    hide Search, Rest, Left, Graph.ListsDistinct, EdgesOf;
    RestTop(g, stack, visited, c);
    var edges := g.succs[c.block][c.next..];
    RestOfEdges(g, c);
    NewEdge(g, visited, edges, d);
    DiscoverFacts(g, stack, c, d);
    var inner := Search(g, visited + {d}, g.succs[d]);
    var rest := Search(g, inner.visited, edges);
    var below := Rest(g, stack, rest.visited);
    RestTop(g, stack, inner.visited, c);
    RestTop(g, stack + [c], visited + {d}, Cursor(d, 0));
    assert g.succs[d][0..] == g.succs[d];
    Regroup(d, inner.pre, rest.pre, below.pre, below.rpo, Left(g, c.block), rest.rpo, inner.rpo);
  }

  lemma Regroup(d: nat, p: seq<nat>, q: seq<nat>, r: seq<nat>, s: seq<nat>, t: seq<nat>, u: seq<nat>, v: seq<nat>)
    ensures ([d] + p + q) + r == [d] + (p + (q + r))
    ensures s + t + (u + [d] + v) == (s + t + u) + [d] + v
  {
  }

  /** A block without successors is left as soon as it is met. */
  lemma RestLeaf(g: Graph, stack: seq<Cursor>, visited: set<nat>, c: Cursor, d: nat)
    requires g.Valid() && CursorsOf(g, stack + [c]) && visited <= g.NormalBlocks()
    requires c.block < g.blocks && c.next < |g.succs[c.block]|
    requires d == g.edges[g.succs[c.block][c.next]].dest && d != g.exit && d !in visited && d < g.blocks
    requires g.succs[d] == []
    ensures visited + {d} <= g.NormalBlocks()
    ensures var r := Rest(g, stack + [c], visited + {d});
            Rest(g, stack + [c], visited) == Visit(r.visited, [d] + r.pre, r.rpo + [d])
  {
    hide Rest, Search, Graph.ListsDistinct;
    RestDiscover(g, stack, visited, c, d);
    RestPop(g, stack + [c], visited + {d}, Cursor(d, 0));
    RestOfEdges(g, c);
    NewEdge(g, visited, g.succs[c.block][c.next..], d);
    DiscoverFacts(g, stack, c, d);
  }
}
