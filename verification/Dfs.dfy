/** The depth-first numbering of IR/cfg.c: an explicit stack of edge cursors, a
    visited bitmap, and the two output lists. */
module Dfs {
  import opened Cfg
  import opened DfsOrder

  function CurrentEdge(g: Graph, c: Cursor): Edge
    requires g.Valid() && c.block < g.blocks && c.next < |g.succs[c.block]|
  {
    g.edges[g.succs[c.block][c.next]]
  }

  ghost predicate NoDuplicates(s: seq<nat>) {
    forall i, j :: 0 <= i < j < |s| ==> s[i] != s[j]
  }

  /** Exactly the ordinary blocks that the entry block reaches, each once. */
  ghost predicate ListsReachable(g: Graph, s: seq<nat>) {
    && NoDuplicates(s)
    && forall b :: b in s <==> g.Normal(b) && g.Reaches(g.entry, b)
  }

  /** Reverse post-order: an edge that leaves a listed block leads further down
      the list, or else its target reaches its source (it closes a cycle). */
  ghost predicate EdgesForwardOrCyclic(g: Graph, s: seq<nat>)
    requires g.Valid()
  {
    forall i, e :: 0 <= i < |s| && 0 <= e < |g.edges| && g.edges[e].src == s[i] && g.edges[e].dest != g.exit ==>
      g.edges[e].dest in s[i + 1..] || g.Reaches(g.edges[e].dest, s[i])
  }

  ghost predicate StackOk(g: Graph, stack: seq<Cursor>)
    requires g.Valid()
  {
    && (forall i :: 0 <= i < |stack| ==> stack[i].block < g.blocks && stack[i].next < |g.succs[stack[i].block]|)
    && (stack != [] ==> stack[0].block == g.entry)
    && (forall i :: 0 < i < |stack| ==> CurrentEdge(g, stack[i - 1]).dest == stack[i].block)
  }

  lemma {:induction false} StackReaches(g: Graph, stack: seq<Cursor>, i: nat, j: nat)
    requires g.Valid() && StackOk(g, stack) && i <= j < |stack|
    ensures g.Reaches(stack[i].block, stack[j].block)
    decreases j
  {
    if i == j {
      ReachesSelf(g, stack[i].block);
    } else {
      StackReaches(g, stack, i, j - 1);
      ReachesStep(g, stack[i].block, g.succs[stack[j - 1].block][stack[j - 1].next]);
    }
  }

  /** The blocks whose edges are still being explored, outermost first. */
  ghost function Open(stack: seq<Cursor>): seq<nat> {
    seq(|stack|, i requires 0 <= i < |stack| => stack[i].block)
  }

  /** Every edge of an open block before its cursor has been followed, and so has
      the edge under the cursor of a block that has another open block above it. */
  ghost predicate Explored(g: Graph, stack: seq<Cursor>, visited: set<nat>)
    requires g.Valid() && StackOk(g, stack)
  {
    forall i, k :: 0 <= i < |stack| && 0 <= k < stack[i].next ==>
      var d := g.edges[g.succs[stack[i].block][k]].dest; d == g.exit || d in visited
  }

  /** The finished blocks: the tail of their edges is settled. */
  ghost predicate Settled(g: Graph, rpo: seq<nat>, visited: set<nat>)
    requires g.Valid()
  {
    && EdgesForwardOrCyclic(g, rpo)
    && forall i, e :: 0 <= i < |rpo| && 0 <= e < |g.edges| && g.edges[e].src == rpo[i] && g.edges[e].dest != g.exit ==>
         g.edges[e].dest in visited
  }

  lemma SettledGrows(g: Graph, rpo: seq<nat>, visited: set<nat>, d: nat)
    requires g.Valid() && Settled(g, rpo, visited)
    ensures Settled(g, rpo, visited + {d})
  {
  }

  /** A block is finished when all its edges have been followed: prepending it keeps the order. */
  lemma Finish(g: Graph, stack: seq<Cursor>, visited: set<nat>, rpo: seq<nat>, b: nat)
    requires g.Valid() && StackOk(g, stack) && stack != []
    requires Settled(g, rpo, visited)
    requires forall v :: v in visited ==> v in rpo || v in Open(stack)
    requires b < g.blocks && b != g.exit
    requires g.Reaches(stack[|stack| - 1].block, b)
    requires forall k :: 0 <= k < |g.succs[b]| ==>
               g.edges[g.succs[b][k]].dest == g.exit || g.edges[g.succs[b][k]].dest in visited
    ensures Settled(g, [b] + rpo, visited)
  {
    var r := [b] + rpo;
    forall i, e | 0 <= i < |r| && 0 <= e < |g.edges| && g.edges[e].src == r[i] && g.edges[e].dest != g.exit
      ensures g.edges[e].dest in visited
      ensures g.edges[e].dest in r[i + 1..] || g.Reaches(g.edges[e].dest, r[i])
    {
      var d := g.edges[e].dest;
      if i == 0 {
        assert e in g.succs[b];
        var k :| 0 <= k < |g.succs[b]| && g.succs[b][k] == e;
        assert d in visited;
        if d in rpo {
          assert r[1..] == rpo;
        } else {
          var j :| 0 <= j < |stack| && stack[j].block == d;
          StackReaches(g, stack, j, |stack| - 1);
          ReachesTrans(g, d, stack[|stack| - 1].block, b);
        }
      } else {
        assert g.edges[e].src == rpo[i - 1];
        assert r[i + 1..] == rpo[i..];
      }
    }
  }

  /** When the search stops, closure under edges gives every reachable block. */
  lemma {:induction false} ReachableListed(g: Graph, rpo: seq<nat>, es: seq<nat>, v: nat)
    requires g.Valid() && g.Walk(g.entry, es, v)
    requires forall i, e ::
               0 <= i < |rpo| && 0 <= e < |g.edges| && g.edges[e].src == rpo[i] && g.edges[e].dest != g.exit ==>
               g.edges[e].dest in rpo
    requires forall e :: 0 <= e < |g.edges| && g.edges[e].src == g.entry && g.edges[e].dest != g.exit ==>
               g.edges[e].dest in rpo
    ensures v == g.entry || v == g.exit || v in rpo
    decreases |es|
  {
    if es != [] {
      var last := es[|es| - 1];
      ReachableListed(g, rpo, es[..|es| - 1], g.edges[last].src);
      assert g.succs[g.exit] == [];
    }
  }

  /** What every iteration of the search keeps. */
  ghost predicate Inv(g: Graph, stack: seq<Cursor>, visited: set<nat>, pre: seq<nat>, rpo: seq<nat>)
    requires g.Valid()
  {
    && StackOk(g, stack)
    && Explored(g, stack, visited)
    && NoDuplicates(Open(stack)) && NoDuplicates(pre) && NoDuplicates(rpo)
    && (forall b :: b in visited <==> b in pre)
    && (forall b :: b in visited <==> b in rpo || (b != g.entry && b in Open(stack)))
    && (forall b :: b in rpo ==> b !in Open(stack))
    && visited <= g.NormalBlocks()
    && (forall b :: b in visited ==> g.Reaches(g.entry, b))
    && Settled(g, rpo, visited)
    && (stack == [] ==> forall k :: 0 <= k < |g.succs[g.entry]| ==>
          var d := g.edges[g.succs[g.entry][k]].dest; d == g.exit || d in visited)
  }

  lemma OpenPush(stack: seq<Cursor>, c: Cursor)
    ensures Open(stack + [c]) == Open(stack) + [c.block]
  {
  }

  /** The block under the cursor is new: it is ordinary, reachable and not yet listed anywhere. */
  lemma NewBlock(g: Graph, stack: seq<Cursor>, visited: set<nat>, pre: seq<nat>, rpo: seq<nat>)
    requires g.Valid() && Inv(g, stack, visited, pre, rpo) && stack != []
    requires CurrentEdge(g, stack[|stack| - 1]).dest != g.exit
    requires CurrentEdge(g, stack[|stack| - 1]).dest !in visited
    ensures var d := CurrentEdge(g, stack[|stack| - 1]).dest;
            && g.Normal(d) && g.Reaches(g.entry, d) && g.Reaches(stack[|stack| - 1].block, d)
            && d !in rpo && d !in pre && d !in Open(stack)
  {
    var top := |stack| - 1;
    var e := g.succs[stack[top].block][stack[top].next];
    StackReaches(g, stack, 0, top);
    ReachesStep(g, g.entry, e);
    ReachesSelf(g, stack[top].block);
    ReachesStep(g, stack[top].block, e);
    assert g.edges[e].dest != g.entry by { assert g.preds[g.entry] == []; }
  }

  lemma DiscoverLeaf(g: Graph, stack: seq<Cursor>, visited: set<nat>, pre: seq<nat>, rpo: seq<nat>, d: nat)
    requires g.Valid() && Inv(g, stack, visited, pre, rpo) && stack != []
    requires d == CurrentEdge(g, stack[|stack| - 1]).dest
    requires d != g.exit && d !in visited && g.succs[d] == []
    ensures Inv(g, stack, visited + {d}, pre + [d], [d] + rpo)
  {
    NewBlock(g, stack, visited, pre, rpo);
    Finish(g, stack, visited, rpo, d);
  }

  lemma PushedStack(g: Graph, stack: seq<Cursor>, visited: set<nat>, d: nat)
    requires g.Valid() && StackOk(g, stack) && stack != [] && Explored(g, stack, visited)
    requires d == CurrentEdge(g, stack[|stack| - 1]).dest && g.succs[d] != []
    ensures StackOk(g, stack + [Cursor(d, 0)]) && Explored(g, stack + [Cursor(d, 0)], visited + {d})
  {
    hide Graph.ListsDistinct;
  }

  lemma DiscoverInner(g: Graph, stack: seq<Cursor>, visited: set<nat>, pre: seq<nat>, rpo: seq<nat>, d: nat)
    requires g.Valid() && Inv(g, stack, visited, pre, rpo) && stack != []
    requires d == CurrentEdge(g, stack[|stack| - 1]).dest
    requires d != g.exit && d !in visited && g.succs[d] != []
    ensures Inv(g, stack + [Cursor(d, 0)], visited + {d}, pre + [d], rpo)
  {
    hide Settled, Graph.ListsDistinct;
    NewBlock(g, stack, visited, pre, rpo);
    OpenPush(stack, Cursor(d, 0));
    SettledGrows(g, rpo, visited, d);
    PushedStack(g, stack, visited, d);
    hide StackOk, Explored, Open;
  }

  lemma OpenPop(stack: seq<Cursor>)
    requires stack != []
    ensures Open(stack) == Open(stack[..|stack| - 1]) + [stack[|stack| - 1].block]
    ensures NoDuplicates(Open(stack)) ==>
              NoDuplicates(Open(stack[..|stack| - 1])) && stack[|stack| - 1].block !in Open(stack[..|stack| - 1])
  {
    var s := Open(stack[..|stack| - 1]);
    assert Open(stack)[|s|] == stack[|s|].block;
    assert forall i :: 0 <= i < |s| ==> s[i] == Open(stack)[i];
  }

  lemma PopInner(g: Graph, stack: seq<Cursor>, visited: set<nat>, pre: seq<nat>, rpo: seq<nat>, b: nat)
    requires g.Valid() && Inv(g, stack, visited, pre, rpo) && stack != []
    requires b == stack[|stack| - 1].block && b != g.entry
    requires stack[|stack| - 1].next + 1 == |g.succs[b]|
    requires var d := CurrentEdge(g, stack[|stack| - 1]).dest; d == g.exit || d in visited
    ensures Inv(g, stack[..|stack| - 1], visited, pre, [b] + rpo)
  {
    hide Settled;
    var stack' := stack[..|stack| - 1];
    OpenPop(stack);
    ReachesSelf(g, b);
    Finish(g, stack, visited, rpo, b);
    assert StackOk(g, stack');
    assert Explored(g, stack', visited);
    assert b in Open(stack) && b !in rpo;
  }

  lemma PopEntry(g: Graph, stack: seq<Cursor>, visited: set<nat>, pre: seq<nat>, rpo: seq<nat>)
    requires g.Valid() && Inv(g, stack, visited, pre, rpo) && stack != []
    requires stack[|stack| - 1].block == g.entry
    requires stack[|stack| - 1].next + 1 == |g.succs[g.entry]|
    requires var d := CurrentEdge(g, stack[|stack| - 1]).dest; d == g.exit || d in visited
    ensures Inv(g, stack[..|stack| - 1], visited, pre, rpo)
  {
    assert Open(stack)[0] == g.entry && Open(stack)[|stack| - 1] == g.entry;
    assert |stack| == 1;
    OpenPop(stack);
    assert Open(stack[..0]) == [];
    assert Open(stack) == [g.entry];
  }

  lemma AdvanceKeeps(g: Graph, stack: seq<Cursor>, visited: set<nat>, pre: seq<nat>, rpo: seq<nat>)
    requires g.Valid() && Inv(g, stack, visited, pre, rpo) && stack != []
    requires var c := stack[|stack| - 1]; c.next + 1 < |g.succs[c.block]|
    requires var d := CurrentEdge(g, stack[|stack| - 1]).dest; d == g.exit || d in visited
    ensures var c := stack[|stack| - 1];
            Inv(g, stack[|stack| - 1 := Cursor(c.block, c.next + 1)], visited, pre, rpo)
  {
    hide NoDuplicates, Settled;
    var top := |stack| - 1;
    assert Open(stack[top := Cursor(stack[top].block, stack[top].next + 1)]) == Open(stack);
  }

  lemma Start(g: Graph)
    requires g.Valid() && g.succs[g.entry] != []
    ensures Inv(g, [Cursor(g.entry, 0)], {}, [], [])
  {
    assert Open([Cursor(g.entry, 0)]) == [g.entry];
  }

  /** What is listed so far and what is left to be listed are the lists of the recursive search. */
  ghost predicate Along(g: Graph, stack: seq<Cursor>, visited: set<nat>, pre: seq<nat>, rpo: seq<nat>)
    requires g.Valid()
  {
    && CursorsOf(g, stack) && visited <= g.NormalBlocks() && EdgesOf(g, g.succs[g.entry])
    && var whole := Search(g, {}, g.succs[g.entry]);
       var rest := Rest(g, stack, visited);
       whole.pre == pre + rest.pre && whole.rpo == rest.rpo + rpo
  }

  lemma AlongStart(g: Graph)
    requires g.Valid()
    ensures Along(g, [Cursor(g.entry, 0)], {}, [], [])
  {
    hide Search, Rest, Graph.ListsDistinct;
    RestStart(g);
    var whole := Search(g, {}, g.succs[g.entry]);
    assert [] + whole.pre == whole.pre && whole.rpo + [] == whole.rpo;
  }

  lemma AlongInner(g: Graph, stack: seq<Cursor>, visited: set<nat>, pre: seq<nat>, rpo: seq<nat>, d: nat)
    requires g.Valid() && Along(g, stack, visited, pre, rpo) && stack != [] && StackOk(g, stack)
    requires d == CurrentEdge(g, stack[|stack| - 1]).dest && d != g.exit && d !in visited
    ensures Along(g, stack + [Cursor(d, 0)], visited + {d}, pre + [d], rpo)
  {
    hide Search, Rest, Graph.ListsDistinct;
    var lower, c := stack[..|stack| - 1], stack[|stack| - 1];
    assert stack == lower + [c];
    RestDiscover(g, lower, visited, c, d);
    var rest := Rest(g, stack + [Cursor(d, 0)], visited + {d});
    assert pre + ([d] + rest.pre) == (pre + [d]) + rest.pre;
  }

  lemma AlongLeaf(g: Graph, stack: seq<Cursor>, visited: set<nat>, pre: seq<nat>, rpo: seq<nat>, d: nat)
    requires g.Valid() && Along(g, stack, visited, pre, rpo) && stack != [] && StackOk(g, stack)
    requires d == CurrentEdge(g, stack[|stack| - 1]).dest && d != g.exit && d !in visited && d < g.blocks
    requires g.succs[d] == []
    ensures Along(g, stack, visited + {d}, pre + [d], [d] + rpo)
  {
    hide Search, Rest, Graph.ListsDistinct;
    var lower, c := stack[..|stack| - 1], stack[|stack| - 1];
    assert stack == lower + [c];
    RestLeaf(g, lower, visited, c, d);
    var rest := Rest(g, stack, visited + {d});
    assert pre + ([d] + rest.pre) == (pre + [d]) + rest.pre;
    assert (rest.rpo + [d]) + rpo == rest.rpo + ([d] + rpo);
  }

  lemma AlongAdvance(g: Graph, stack: seq<Cursor>, visited: set<nat>, pre: seq<nat>, rpo: seq<nat>)
    requires g.Valid() && Along(g, stack, visited, pre, rpo) && stack != [] && StackOk(g, stack)
    requires var d := CurrentEdge(g, stack[|stack| - 1]).dest; d == g.exit || d in visited
    ensures var c := stack[|stack| - 1];
            Along(g, stack[|stack| - 1 := Cursor(c.block, c.next + 1)], visited, pre, rpo)
  {
    hide Search, Rest, Graph.ListsDistinct;
    var lower, c := stack[..|stack| - 1], stack[|stack| - 1];
    assert stack == lower + [c];
    assert stack[|stack| - 1 := Cursor(c.block, c.next + 1)] == lower + [Cursor(c.block, c.next + 1)];
    RestAdvance(g, lower, visited, c);
  }

  lemma AlongPop(g: Graph, stack: seq<Cursor>, visited: set<nat>, pre: seq<nat>, rpo: seq<nat>)
    requires g.Valid() && Along(g, stack, visited, pre, rpo) && stack != [] && StackOk(g, stack)
    requires var c := stack[|stack| - 1]; c.next + 1 == |g.succs[c.block]|
    requires var d := CurrentEdge(g, stack[|stack| - 1]).dest; d == g.exit || d in visited
    ensures Along(g, stack[..|stack| - 1], visited, pre, Left(g, stack[|stack| - 1].block) + rpo)
  {
    hide Search, Rest, Left, Graph.ListsDistinct;
    AlongAdvance(g, stack, visited, pre, rpo);
    var lower, c := stack[..|stack| - 1], stack[|stack| - 1];
    var done := Cursor(c.block, c.next + 1);
    assert stack[|stack| - 1 := done] == lower + [done];
    RestPop(g, lower, visited, done);
    var rest := Rest(g, lower, visited);
    assert (rest.rpo + Left(g, c.block)) + rpo == rest.rpo + (Left(g, c.block) + rpo);
  }

  lemma AlongEnd(g: Graph, visited: set<nat>, pre: seq<nat>, rpo: seq<nat>)
    requires g.Valid() && Along(g, [], visited, pre, rpo)
    ensures DepthFirstLists(g, pre, rpo)
  {
    hide Search, DepthFirst, Graph.ListsDistinct;
    SearchIsDepthFirst(g);
  }

  /** Both lists are those of the recursive search from the entry block, and so the first one
      is a depth-first pre-order. */
  ghost predicate DepthFirstLists(g: Graph, pre: seq<nat>, rpo: seq<nat>)
    requires g.Valid()
  {
    && EdgesOf(g, g.succs[g.entry])
    && var whole := Search(g, {}, g.succs[g.entry]);
       pre == whole.pre && rpo == whole.rpo && DepthFirst(g, pre)
  }

  /** pre_and_rev_post_order_compute without the entry and exit blocks. */
  method SearchForward(g: Graph) returns (pre: seq<nat>, rpo: seq<nat>)
    requires g.Valid() && g.succs[g.entry] != []
    ensures ListsReachable(g, pre) && ListsReachable(g, rpo)
    ensures EdgesForwardOrCyclic(g, rpo)
    ensures DepthFirstLists(g, pre, rpo)
  {
    hide Along, DepthFirstLists;
    hide ListsReachable, EdgesForwardOrCyclic, Explored, NoDuplicates, Open, Settled, Inv, Graph.ListsDistinct;
    var visited: set<nat> := {};
    pre, rpo := [], [];
    var stack := [Cursor(g.entry, 0)];
    Start(g);
    AlongStart(g);
    InvFacts(g, stack, visited, pre, rpo);
    while stack != []
      invariant Inv(g, stack, visited, pre, rpo) && StackOk(g, stack) && visited <= g.NormalBlocks()
      invariant Along(g, stack, visited, pre, rpo)
      decreases g.NormalBlocks() - visited, |stack|,
                if stack == [] then 0 else |g.succs[stack[|stack| - 1].block]| - stack[|stack| - 1].next
    {
      var top := |stack| - 1;
      var src := stack[top].block;
      var next := stack[top].next;
      var dest := CurrentEdge(g, stack[top]).dest;
      if dest != g.exit && dest !in visited {
        NewBlock(g, stack, visited, pre, rpo);
        if g.succs[dest] != [] {
          DiscoverInner(g, stack, visited, pre, rpo, dest);
          AlongInner(g, stack, visited, pre, rpo, dest);
        } else {
          DiscoverLeaf(g, stack, visited, pre, rpo, dest);
          AlongLeaf(g, stack, visited, pre, rpo, dest);
        }
        visited := visited + {dest};
        pre := pre + [dest];
        if g.succs[dest] != [] {
          stack := stack + [Cursor(dest, 0)];
        } else {
          rpo := [dest] + rpo;
        }
      } else {
        if next + 1 < |g.succs[src]| {
          AdvanceKeeps(g, stack, visited, pre, rpo);
          AlongAdvance(g, stack, visited, pre, rpo);
          stack := stack[top := Cursor(src, next + 1)];
        } else {
          AlongPop(g, stack, visited, pre, rpo);
          assert [] + rpo == rpo;
          if src != g.entry {
            PopInner(g, stack, visited, pre, rpo, src);
            rpo := [src] + rpo;
          } else {
            PopEntry(g, stack, visited, pre, rpo);
          }
          stack := stack[..top];
        }
      }
      InvFacts(g, stack, visited, pre, rpo);
    }
    SearchComplete(g, visited, pre, rpo);
    AlongEnd(g, visited, pre, rpo);
  }

  lemma InvFacts(g: Graph, stack: seq<Cursor>, visited: set<nat>, pre: seq<nat>, rpo: seq<nat>)
    requires g.Valid() && Inv(g, stack, visited, pre, rpo)
    ensures StackOk(g, stack) && visited <= g.NormalBlocks()
  {
    hide Explored, NoDuplicates, Open, Settled;
  }

  lemma SearchComplete(g: Graph, visited: set<nat>, pre: seq<nat>, rpo: seq<nat>)
    requires g.Valid() && Inv(g, [], visited, pre, rpo)
    ensures ListsReachable(g, pre) && ListsReachable(g, rpo) && EdgesForwardOrCyclic(g, rpo)
  {
    assert Open([]) == [];
    forall b | g.Normal(b) && g.Reaches(g.entry, b) ensures b in rpo && b in pre {
      var es :| g.Walk(g.entry, es, b);
      ReachableListed(g, rpo, es, b);
    }
  }

  /** The list for the whole graph: the two boundary blocks around the ordinary ones. */
  ghost predicate WithBoundary(h: Graph, full: seq<nat>, inner: seq<nat>) {
    full == [h.entry] + inner + [h.exit]
  }

  /** The general entry point: `reverse` searches the reversed graph, and
      `includeEntryExit` puts the two boundary blocks at the ends of both lists. */
  method PreAndRevPostOrder(g: Graph, includeEntryExit: bool, reverse: bool)
    returns (pre: seq<nat>, rpo: seq<nat>)
    requires g.Valid() && (if reverse then g.preds[g.exit] else g.succs[g.entry]) != []
    ensures var h := if reverse then g.Reversed() else g;
            if includeEntryExit then
              exists innerPre, inner :: WithBoundary(h, pre, innerPre) && WithBoundary(h, rpo, inner)
                && ListsReachable(h, innerPre) && ListsReachable(h, inner) && EdgesForwardOrCyclic(h, inner)
                && DepthFirstLists(h, innerPre, inner)
            else
              && ListsReachable(h, pre) && ListsReachable(h, rpo) && EdgesForwardOrCyclic(h, rpo)
              && DepthFirstLists(h, pre, rpo)
  {
    hide DepthFirstLists;
    var h := if reverse then g.Reversed() else g;
    pre, rpo := SearchForward(h);
    if includeEntryExit {
      ghost var innerPre, inner := pre, rpo;
      pre := [h.entry] + pre + [h.exit];
      rpo := [h.entry] + rpo + [h.exit];
      assert WithBoundary(h, pre, innerPre) && WithBoundary(h, rpo, inner);
    }
  }

  /** On an acyclic graph the list is a topological order. */
  lemma TopologicalOrder(g: Graph, s: seq<nat>, i: nat, j: nat, e: nat)
    requires g.Valid() && ListsReachable(g, s) && EdgesForwardOrCyclic(g, s)
    requires forall u: nat, v: nat :: u < g.blocks && v < g.blocks && g.Reaches(u, v) && g.Reaches(v, u) ==> u == v
    requires forall e' :: 0 <= e' < |g.edges| ==> g.edges[e'].src != g.edges[e'].dest
    requires i < |s| && j < |s| && e < |g.edges| && g.edges[e] == Edge(s[i], s[j])
    ensures i < j
  {
    assert s[j] in s && s[i] in s;
    if g.Reaches(s[j], s[i]) {
      ReachesStep(g, s[i], e) by { ReachesSelf(g, s[i]); }
      assert false;
    } else {
      var k :| 0 <= k < |s[i + 1..]| && s[i + 1..][k] == s[j];
      assert s[i + 1 + k] == s[j];
    }
  }
}
