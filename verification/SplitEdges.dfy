/** Splitting of critical edges before lazy code motion (opt/lcm.c). */
module SplitEdges {
  import opened Cfg
  import opened LcmCorrectness

  // ---------- lists of edges ----------

  ghost predicate Once(s: seq<nat>) {
    forall j, k :: 0 <= j < k < |s| ==> s[j] != s[k]
  }

  /** The list after one edge has been disconnected. */
  function Without(s: seq<nat>, e: nat): (r: seq<nat>)
  {
    if s == [] then [] else if s[0] == e then s[1..] else [s[0]] + Without(s[1..], e)
  }

  lemma {:induction false} WithoutList(s: seq<nat>, e: nat)
    requires Once(s) && e in s
    ensures |Without(s, e)| == |s| - 1 && Once(Without(s, e)) && forall x :: x in Without(s, e) <==> x in s && x != e
  {
    if s[0] == e {
      assert s == [e] + s[1..];
    } else {
      assert s == [s[0]] + s[1..];
      WithoutList(s[1..], e);
      OnceMore(s[0], Without(s[1..], e));
    }
  }

  lemma OnceMore(x: nat, r: seq<nat>)
    requires Once(r) && x !in r
    ensures Once([x] + r) && forall y :: y in [x] + r <==> y == x || y in r
  {
    forall j, k | 0 <= j < k < |[x] + r| ensures ([x] + r)[j] != ([x] + r)[k] {
      assert r[k - 1] in r;
    }
  }

  lemma AppendOnce(s: seq<nat>, e: nat)
    requires Once(s) && e !in s
    ensures Once(s + [e]) && forall x :: x in s + [e] <==> x in s || x == e
  {
  }

  // ---------- the graph, seen through membership ----------

  /** Graph.Valid, said with list membership. */
  ghost predicate Sound(g: Graph) {
    && g.entry < g.blocks && g.exit < g.blocks && g.entry != g.exit && |g.succs| == |g.preds| == g.blocks
    && (forall e :: 0 <= e < |g.edges| ==> g.edges[e].src < g.blocks && g.edges[e].dest < g.blocks)
    && (forall b: nat, e: nat {:trigger e in g.succs[b]} :: b < g.blocks ==>
           (e in g.succs[b] <==> e < |g.edges| && g.edges[e].src == b))
    && (forall b: nat, e: nat {:trigger e in g.preds[b]} :: b < g.blocks ==>
           (e in g.preds[b] <==> e < |g.edges| && g.edges[e].dest == b))
    && g.preds[g.entry] == [] && g.succs[g.exit] == []
    && (forall b :: 0 <= b < g.blocks ==> Once(g.succs[b]) && Once(g.preds[b]))
  }

  lemma ValidSound(g: Graph)
    requires g.Valid()
    ensures Sound(g)
  {
    forall b: nat, e: nat | b < g.blocks ensures (e in g.succs[b] <==> e < |g.edges| && g.edges[e].src == b) {
    }
    forall b: nat, e: nat | b < g.blocks ensures (e in g.preds[b] <==> e < |g.edges| && g.edges[e].dest == b) {
    }
    forall b: nat | b < g.blocks ensures Once(g.succs[b]) && Once(g.preds[b]) {
    }
  }

  lemma SoundValid(g: Graph)
    requires Sound(g)
    ensures g.Valid()
  {
    forall b, k | 0 <= b < g.blocks && 0 <= k < |g.succs[b]|
      ensures g.succs[b][k] < |g.edges| && g.edges[g.succs[b][k]].src == b
    {
      assert g.succs[b][k] in g.succs[b];
    }
    forall b, k | 0 <= b < g.blocks && 0 <= k < |g.preds[b]|
      ensures g.preds[b][k] < |g.edges| && g.edges[g.preds[b][k]].dest == b
    {
      assert g.preds[b][k] in g.preds[b];
    }
    assert forall b :: 0 <= b < g.blocks ==> Once(g.succs[b]) && Once(g.preds[b]);
  }

  // ---------- link_block, make_edge, and an edge that gets another target ----------

  function AddBlock(g: Graph): Graph
    requires |g.succs| == |g.preds| == g.blocks
  {
    g.(blocks := g.blocks + 1, succs := g.succs + [[]], preds := g.preds + [[]])
  }

  function MakeEdge(g: Graph, u: nat, v: nat): Graph
    requires u < |g.succs| && v < |g.preds|
  {
    var f := |g.edges|;
    g.(edges := g.edges + [Edge(u, v)], succs := g.succs[u := g.succs[u] + [f]],
      preds := g.preds[v := g.preds[v] + [f]])
  }

  /** make_edge from the same source to v, and remove_edge of e. The new edge keeps the number
      of the old one, so that it stands for the same way out of its source. */
  function Redirect(g: Graph, e: nat, v: nat): Graph
    requires e < |g.edges| && g.edges[e].src < |g.succs| && g.edges[e].dest < |g.preds| && v < |g.preds|
  {
    var u, w := g.edges[e].src, g.edges[e].dest;
    var preds' := g.preds[v := g.preds[v] + [e]];
    g.(edges := g.edges[e := Edge(u, v)], succs := g.succs[u := Without(g.succs[u], e) + [e]],
      preds := preds'[w := Without(preds'[w], e)])
  }

  lemma AddBlockSound(g: Graph)
    requires Sound(g)
    ensures Sound(AddBlock(g))
  {
  }

  lemma MakeEdgeSound(g: Graph, u: nat, v: nat)
    requires Sound(g) && u < g.blocks && v < g.blocks && u != g.exit && v != g.entry
    ensures Sound(MakeEdge(g, u, v))
  {
    var h, f := MakeEdge(g, u, v), |g.edges|;
    assert f !in g.succs[u] && f !in g.preds[v];
    AppendOnce(g.succs[u], f);
    AppendOnce(g.preds[v], f);
    forall b: nat, e: nat | b < h.blocks ensures (e in h.succs[b] <==> e < |h.edges| && h.edges[e].src == b) {
      assert e in g.succs[b] <==> e < |g.edges| && g.edges[e].src == b;
    }
    forall b: nat, e: nat | b < h.blocks ensures (e in h.preds[b] <==> e < |h.edges| && h.edges[e].dest == b) {
      assert e in g.preds[b] <==> e < |g.edges| && g.edges[e].dest == b;
    }
  }

  lemma RedirectSound(g: Graph, e: nat, v: nat)
    requires Sound(g) && e < |g.edges| && v < g.blocks && v != g.entry && v != g.edges[e].dest
    ensures Sound(Redirect(g, e, v))
    ensures var h, u, w := Redirect(g, e, v), g.edges[e].src, g.edges[e].dest;
            && |h.succs[u]| == |g.succs[u]| && |h.preds[w]| == |g.preds[w]| - 1 && |h.preds[v]| == |g.preds[v]| + 1
            && multiset(h.succs[u]) == multiset(g.succs[u]) && (|g.succs[u]| == 1 ==> h.succs[u] == g.succs[u])
  {
    var h, u, w := Redirect(g, e, v), g.edges[e].src, g.edges[e].dest;
    assert e in g.succs[u] && e in g.preds[w] && e !in g.preds[v];
    RedirectSuccs(g, e, v);
    RedirectPreds(g, e, v);
    assert g.succs[g.exit] == [] && u != g.exit;
  }

  lemma RedirectSuccs(g: Graph, e: nat, v: nat)
    requires Sound(g) && e < |g.edges| && v < g.blocks
    ensures var h, u := Redirect(g, e, v), g.edges[e].src;
            && |h.succs| == h.blocks && |h.succs[u]| == |g.succs[u]| && multiset(h.succs[u]) == multiset(g.succs[u])
            && (|g.succs[u]| == 1 ==> h.succs[u] == g.succs[u])
            && (forall b: nat, x: nat {:trigger x in h.succs[b]} :: b < h.blocks ==>
                   (x in h.succs[b] <==> x < |h.edges| && h.edges[x].src == b))
            && (forall b :: 0 <= b < h.blocks ==> Once(h.succs[b]))
  {
    var h, u := Redirect(g, e, v), g.edges[e].src;
    assert e in g.succs[u];
    WithoutList(g.succs[u], e);
    AppendOnce(Without(g.succs[u], e), e);
    WithoutSame(g.succs[u], e);
    forall b: nat, x: nat | b < h.blocks ensures (x in h.succs[b] <==> x < |h.edges| && h.edges[x].src == b) {
      assert x in g.succs[b] <==> x < |g.edges| && g.edges[x].src == b;
    }
  }

  lemma RedirectPreds(g: Graph, e: nat, v: nat)
    requires Sound(g) && e < |g.edges| && v < g.blocks && v != g.entry && v != g.edges[e].dest
    ensures var h, w := Redirect(g, e, v), g.edges[e].dest;
            && |h.preds| == h.blocks && |h.preds[w]| == |g.preds[w]| - 1 && |h.preds[v]| == |g.preds[v]| + 1
            && h.preds[g.entry] == []
            && (forall b: nat, x: nat {:trigger x in h.preds[b]} :: b < h.blocks ==>
                   (x in h.preds[b] <==> x < |h.edges| && h.edges[x].dest == b))
            && (forall b :: 0 <= b < h.blocks ==> Once(h.preds[b]))
  {
    var h, w := Redirect(g, e, v), g.edges[e].dest;
    assert e in g.preds[w] && e !in g.preds[v];
    AppendOnce(g.preds[v], e);
    WithoutList(g.preds[w], e);
    forall b: nat, x: nat | b < h.blocks ensures (x in h.preds[b] <==> x < |h.edges| && h.edges[x].dest == b) {
      assert x in g.preds[b] <==> x < |g.edges| && g.edges[x].dest == b;
    }
  }

  lemma {:induction false} WithoutSame(s: seq<nat>, e: nat)
    requires e in s
    ensures multiset(Without(s, e) + [e]) == multiset(s)
  {
    if s[0] == e {
      assert s == [e] + s[1..];
    } else {
      assert s == [s[0]] + s[1..];
      WithoutSame(s[1..], e);
      assert Without(s, e) + [e] == [s[0]] + (Without(s[1..], e) + [e]);
    }
  }

  // ---------- what the pass keeps ----------

  /** From block b nothing but at most n jump blocks lead to the old block t. */
  ghost predicate JumpsTo(g: Graph, olds: nat, b: nat, t: nat, n: nat)
    requires Sound(g)
    decreases n
  {
    if b < olds then b == t
    else n > 0 && b < g.blocks && |g.succs[b]| == 1 && JumpsTo(g, olds, Next(g, b), t, n - 1)
  }

  /** Where the only edge of a block leads. */
  function Next(g: Graph, b: nat): nat
    requires b < |g.succs| && |g.succs[b]| == 1
  {
    if g.succs[b][0] < |g.edges| then g.edges[g.succs[b][0]].dest else 0
  }

  /** Every edge of the graph before the pass still starts in its block and leads to its
      target, through new blocks that hold only a jump; no block has got more ways out. */
  ghost predicate SameFlow(g0: Graph, g: Graph)
    requires Sound(g)
  {
    && g.entry == g0.entry && g.exit == g0.exit && g0.blocks <= g.blocks && |g0.edges| <= |g.edges|
    && (forall e :: 0 <= e < |g0.edges| ==>
           g.edges[e].src == g0.edges[e].src && JumpsTo(g, g0.blocks, g.edges[e].dest, g0.edges[e].dest, 2))
    && |g0.succs| == g0.blocks
    && (forall b :: 0 <= b < g0.blocks ==> multiset(g.succs[b]) == multiset(g0.succs[b]))
    && (forall b :: g0.blocks <= b < g.blocks ==> |g.succs[b]| == 1)
  }

  /** c is the block that has been put before the exit, if there is one: 0 stands for none. */
  ghost predicate Collector(g0: Graph, g: Graph, c: nat)
    requires Sound(g)
  {
    c != 0 ==> g0.blocks <= c < g.blocks && |g.succs[c]| == 1 && Next(g, c) == g.exit && |g.preds[g.exit]| == 1
  }

  /** New blocks lead to old ones or to the one before the exit, and are entered by one edge;
      an edge that is not in todo has been split. */
  ghost predicate Shape(g0: Graph, g: Graph, c: nat, todo: set<nat>)
    requires Sound(g) && SameFlow(g0, g)
  {
    && (forall b :: g0.blocks <= b < g.blocks && b != c ==>
           |g.preds[b]| == 1 && (Next(g, b) < g0.blocks || (c != 0 && Next(g, b) == c)))
    && (forall e :: e in todo ==> e < |g0.edges|)
    && (forall e: nat :: e < |g0.edges| && e !in todo ==> |g.preds[g.edges[e].dest]| == 1)
    && 0 < g0.blocks
  }

  ghost predicate State(g0: Graph, g: Graph, c: nat, todo: set<nat>) {
    Sound(g0) && Sound(g) && SameFlow(g0, g) && Collector(g0, g, c) && Shape(g0, g, c, todo) && g.AllReachable()
  }

  /** An edge that must be split: it leads from a block with several successors to one with
      several predecessors, or it is one of several into the exit. */
  ghost predicate Crowded(g: Graph, e: nat) {
    && e < |g.edges| && g.edges[e].src < |g.succs| && g.edges[e].dest < |g.preds|
    && |g.preds[g.edges[e].dest]| >= 2 && (|g.succs[g.edges[e].src]| >= 2 || g.edges[e].dest == g.exit)
  }

  /** No other edge has been touched. */
  ghost predicate Spared(g0: Graph, g: Graph) {
    |g0.edges| <= |g.edges|
    && forall e: nat :: e < |g0.edges| ==> g.edges[e].dest == g0.edges[e].dest || Crowded(g0, e)
  }

  /** ... and no old block has lost or gained a way in, but for the exit. */
  ghost predicate SameCounts(g0: Graph, g: Graph, c: nat) {
    && |g0.preds| == g0.blocks <= g.blocks == |g.preds| && g.exit == g0.exit < g0.blocks
    && (forall b: nat :: b < g0.blocks && b != g0.exit ==> |g.preds[b]| == |g0.preds[b]|)
    && (if c == 0 then |g.preds[g.exit]| == |g0.preds[g0.exit]| else |g.preds[g.exit]| == 1)
  }

  /** The edge is not critical. */
  predicate Plain(g: Graph, e: nat)
    requires e < |g.edges| && g.edges[e].src < |g.succs| && g.edges[e].dest < |g.preds|
  {
    |g.succs[g.edges[e].src]| < 2 || |g.preds[g.edges[e].dest]| < 2
  }

  /** What holds of the blocks that have been visited. */
  ghost predicate Visited(g: Graph, b: nat)
    requires Sound(g)
  {
    forall e :: 0 <= e < |g.edges| && g.edges[e].src < b ==>
      Plain(g, e) && (g.edges[e].dest == g.exit ==> |g.preds[g.exit]| < 2)
  }

  // ---------- a critical edge split ----------

  function Split(g: Graph, e: nat): Graph
    requires Sound(g) && e < |g.edges|
  {
    var n := g.blocks;
    Redirect(MakeEdge(AddBlock(g), n, g.edges[e].dest), e, n)
  }

  lemma SplitSound(g: Graph, e: nat)
    requires Sound(g) && e < |g.edges|
    ensures Sound(Split(g, e)) && Split(g, e).blocks == g.blocks + 1 && |Split(g, e).edges| == |g.edges| + 1
    ensures var h, n := Split(g, e), g.blocks;
            && h.entry == g.entry && h.exit == g.exit
            && h.edges[e] == Edge(g.edges[e].src, n) && h.edges[|g.edges|] == Edge(n, g.edges[e].dest)
            && (forall x :: 0 <= x < |g.edges| && x != e ==> h.edges[x] == g.edges[x])
            && h.succs[n] == [|g.edges|] && |h.preds[n]| == 1
            && (forall b :: 0 <= b < n ==> |h.preds[b]| == |g.preds[b]|)
            && (forall b :: 0 <= b < n ==>
                 multiset(h.succs[b]) == multiset(g.succs[b]) && |h.succs[b]| == |g.succs[b]|
                   && (|g.succs[b]| == 1 ==> h.succs[b] == g.succs[b]))
            && h.succs[g.edges[e].src] == Without(g.succs[g.edges[e].src], e) + [e]
  {
    hide Sound, Without;
    var n, w, u := g.blocks, g.edges[e].dest, g.edges[e].src;
    Ends(g, e);
    AddBlockSound(g);
    var g1 := AddBlock(g);
    MakeEdgeSound(g1, n, w);
    var g2 := MakeEdge(g1, n, w);
    RedirectSound(g2, e, n);
    SameSize(g.succs[u], Split(g, e).succs[u]);
  }

  lemma SameSize(s: seq<nat>, t: seq<nat>)
    requires multiset(s) == multiset(t)
    ensures |s| == |t|
  {
    assert |multiset(s)| == |s| && |multiset(t)| == |t|;
  }

  lemma Ends(g: Graph, e: nat)
    requires Sound(g) && e < |g.edges|
    ensures g.entry < g.blocks && g.exit < g.blocks && |g.succs| == |g.preds| == g.blocks
    ensures g.edges[e].src < g.blocks && g.edges[e].dest < g.blocks && g.edges[e].src != g.exit
    ensures g.edges[e].dest != g.entry
  {
    assert e in g.succs[g.edges[e].src] && e in g.preds[g.edges[e].dest];
  }

  /** Only an edge of the original graph can be critical. */
  lemma CriticalIsOld(g0: Graph, g: Graph, c: nat, todo: set<nat>, e: nat)
    requires State(g0, g, c, todo) && e < |g.edges| && |g.succs[g.edges[e].src]| >= 2
    ensures g.edges[e].src < g0.blocks && e < |g0.edges|
    ensures |g.preds[g.edges[e].dest]| >= 2 ==>
              e in todo && (g.edges[e].dest < g0.blocks || (c != 0 && g.edges[e].dest == c))
  {
    var u := g.edges[e].src;
    assert u < g0.blocks;
    assert e in g.succs[u];
    assert e in multiset(g.succs[u]);
    assert e in g0.succs[u];
  }

  lemma {:induction false} JumpsToKept(g: Graph, h: Graph, olds: nat, b: nat, t: nat, n: nat)
    requires Sound(g) && Sound(h) && JumpsTo(g, olds, b, t, n) && g.blocks <= h.blocks
    requires forall k :: olds <= k < g.blocks && |g.succs[k]| == 1 ==> |h.succs[k]| == 1 && Next(h, k) == Next(g, k)
    ensures JumpsTo(h, olds, b, t, n)
    decreases n
  {
    if b >= olds {
      JumpsToKept(g, h, olds, Next(g, b), t, n - 1);
    }
  }

  lemma SplitNext(g0: Graph, g: Graph, c: nat, todo: set<nat>, e: nat)
    requires State(g0, g, c, todo) && e < |g0.edges| && g.edges[e].src < g0.blocks
    ensures Sound(Split(g, e)) && Split(g, e).blocks == g.blocks + 1
    ensures forall k :: g0.blocks <= k < g.blocks ==> |Split(g, e).succs[k]| == 1 && Next(Split(g, e), k) == Next(g, k)
    ensures |Split(g, e).succs[g.blocks]| == 1 && Next(Split(g, e), g.blocks) == g.edges[e].dest
  {
    SplitSound(g, e);
    var h := Split(g, e);
    forall k | g0.blocks <= k < g.blocks ensures |h.succs[k]| == 1 && Next(h, k) == Next(g, k) {
      assert h.succs[k] == g.succs[k];
      var f := g.succs[k][0];
      assert f in g.succs[k];
      assert f != e;
    }
  }

  /** A critical edge split keeps the state, and needs no second split. */
  lemma SplitKeeps(g0: Graph, g: Graph, c: nat, todo: set<nat>, e: nat)
    requires State(g0, g, c, todo) && e < |g.edges| && !Plain(g, e)
    ensures e in todo && State(g0, Split(g, e), c, todo - {e})
    ensures forall b: nat :: Visited(g, b) && b <= g.edges[e].src ==> Visited(Split(g, e), b)
  {
    CriticalIsOld(g0, g, c, todo, e);
    SplitSound(g, e);
    var h, n := Split(g, e), g.blocks;
    hide Sound, Split;
    SplitFlow(g0, g, c, todo, e);
    SplitReach(g, e);
    SplitShape(g0, g, c, todo, e);
    forall b: nat | Visited(g, b) && b <= g.edges[e].src ensures Visited(h, b) {
      SplitVisited(g0, g, c, todo, e, b);
    }
  }

  lemma SplitSpares(g0: Graph, g: Graph, c: nat, todo: set<nat>, e: nat)
    requires State(g0, g, c, todo) && e < |g.edges| && !Plain(g, e) && Spared(g0, g) && SameCounts(g0, g, c)
    ensures Spared(g0, Split(g, e)) && SameCounts(g0, Split(g, e), c)
  {
    CriticalIsOld(g0, g, c, todo, e);
    SplitSound(g, e);
    hide Split, Graph.AllReachable;
    if g.edges[e].dest == g0.edges[e].dest {
      SameSize(g.succs[g.edges[e].src], g0.succs[g.edges[e].src]);
    }
  }

  lemma SplitShape(g0: Graph, g: Graph, c: nat, todo: set<nat>, e: nat)
    requires State(g0, g, c, todo) && e < |g0.edges| && g.edges[e].src < g0.blocks && Sound(Split(g, e))
    requires SameFlow(g0, Split(g, e))
    requires g.edges[e].dest < g0.blocks || (c != 0 && g.edges[e].dest == c)
    ensures Collector(g0, Split(g, e), c) && Shape(g0, Split(g, e), c, todo - {e})
  {
    hide Graph.AllReachable, Without;
    SplitSound(g, e);
    SplitNext(g0, g, c, todo, e);
    var h, n := Split(g, e), g.blocks;
    hide Sound, Split, SameFlow;
    forall b | g0.blocks <= b < h.blocks && b != c
      ensures |h.preds[b]| == 1 && (Next(h, b) < g0.blocks || (c != 0 && Next(h, b) == c))
    {
      if b != n {
        assert Next(h, b) == Next(g, b);
      }
    }
    SplitSettles(g0, g, c, todo, e);
  }

  /** The edge that is split leads to a block of its own; the others lead where they did. */
  lemma SplitSettles(g0: Graph, g: Graph, c: nat, todo: set<nat>, e: nat)
    requires State(g0, g, c, todo) && e < |g0.edges| <= |g.edges| && g.edges[e].src < g0.blocks && Sound(Split(g, e))
    ensures |Split(g, e).edges| == |g.edges| + 1
    ensures forall x: nat :: x < |g0.edges| && x !in todo - {e} ==> |Split(g, e).preds[Split(g, e).edges[x].dest]| == 1
  {
    hide Graph.AllReachable, Without, SameFlow, Collector;
    SplitSound(g, e);
    var h := Split(g, e);
    forall x: nat | x < |g0.edges| && x !in todo - {e} ensures |h.preds[h.edges[x].dest]| == 1 {
      if x != e {
        Ends(g, x);
      }
    }
  }

  /** The new block leads on to where the edge led. */
  lemma SplitFlowAt(g0: Graph, g: Graph, c: nat, todo: set<nat>, e: nat)
    requires State(g0, g, c, todo) && e < |g0.edges| && g.edges[e].src < g0.blocks
    requires g.edges[e].dest < g0.blocks || (c != 0 && g.edges[e].dest == c)
    ensures Sound(Split(g, e)) && JumpsTo(Split(g, e), g0.blocks, g.blocks, g0.edges[e].dest, 2)
  {
    SplitSound(g, e);
    SplitNext(g0, g, c, todo, e);
    var h, n, d := Split(g, e), g.blocks, g.edges[e].dest;
    hide Split, Sound, Graph.AllReachable;
    assert Next(h, n) == d;
    if d >= g0.blocks {
      assert Next(g, c) == g.exit == g0.exit;
      assert JumpsTo(g, g0.blocks, c, g0.edges[e].dest, 2);
      assert g0.exit < g0.blocks;
      assert g0.edges[e].dest == g0.exit;
      assert JumpsTo(h, g0.blocks, g0.exit, g0.exit, 0);
      assert JumpsTo(h, g0.blocks, c, g0.exit, 1);
    } else {
      assert JumpsTo(h, g0.blocks, d, g0.edges[e].dest, 1);
    }
  }

  lemma SplitFlow(g0: Graph, g: Graph, c: nat, todo: set<nat>, e: nat)
    requires State(g0, g, c, todo) && e < |g0.edges| && g.edges[e].src < g0.blocks
    requires g.edges[e].dest < g0.blocks || (c != 0 && g.edges[e].dest == c)
    ensures Sound(Split(g, e)) && SameFlow(g0, Split(g, e))
  {
    hide Graph.AllReachable, Shape, Collector, Without;
    SplitSound(g, e);
    SplitJumps(g0, g, c, todo, e);
    var h := Split(g, e);
    assert h.succs[g.blocks] == [|g.edges|];
    hide Split, Sound, JumpsTo;
  }

  lemma SplitJumps(g0: Graph, g: Graph, c: nat, todo: set<nat>, e: nat)
    requires State(g0, g, c, todo) && e < |g0.edges| <= |g.edges| && g.edges[e].src < g0.blocks
    requires g.edges[e].dest < g0.blocks || (c != 0 && g.edges[e].dest == c)
    ensures Sound(Split(g, e)) && |Split(g, e).edges| == |g.edges| + 1
    ensures forall x :: 0 <= x < |g0.edges| ==>
              && Split(g, e).edges[x].src == g0.edges[x].src
              && JumpsTo(Split(g, e), g0.blocks, Split(g, e).edges[x].dest, g0.edges[x].dest, 2)
  {
    SplitSound(g, e);
    SplitNext(g0, g, c, todo, e);
    var h, n := Split(g, e), g.blocks;
    hide Split, Graph.AllReachable, Without;
    forall x | 0 <= x < |g0.edges|
      ensures h.edges[x].src == g0.edges[x].src && JumpsTo(h, g0.blocks, h.edges[x].dest, g0.edges[x].dest, 2)
    {
      if x == e {
        SplitFlowAt(g0, g, c, todo, e);
      } else {
        JumpsToKept(g, h, g0.blocks, g.edges[x].dest, g0.edges[x].dest, 2);
      }
    }
  }

  lemma SplitVisited(g0: Graph, g: Graph, c: nat, todo: set<nat>, e: nat, b: nat)
    requires State(g0, g, c, todo) && e < |g0.edges| && g.edges[e].src < g0.blocks && Visited(g, b)
    requires b <= g.edges[e].src
    ensures Sound(Split(g, e)) && Visited(Split(g, e), b)
  {
    hide Collector, Shape, Graph.AllReachable, Without;
    SplitSound(g, e);
    var h := Split(g, e);
    hide Split, SameFlow;
    forall x | 0 <= x < |h.edges| && h.edges[x].src < b
      ensures Plain(h, x) && (h.edges[x].dest == h.exit ==> |h.preds[h.exit]| < 2)
    {
      assert x != e && x < |g.edges| && h.edges[x] == g.edges[x];
      Ends(g, x);
      assert Plain(g, x);
    }
  }

  /** Whatever could be reached without leaving the exit still can. */
  lemma {:induction false} ReachesKept(g: Graph, h: Graph, es: seq<nat>, v: nat)
    requires Sound(g) && g.Walk(g.entry, es, v) && v != g.exit
    requires forall x :: 0 <= x < |g.edges| && g.edges[x].dest != g.exit ==> h.Reaches(g.edges[x].src, g.edges[x].dest)
    ensures h.Reaches(g.entry, v)
    decreases |es|
  {
    if es == [] {
      ReachesSelf(h, v);
    } else {
      var x := es[|es| - 1];
      Ends(g, x);
      ReachesKept(g, h, es[..|es| - 1], g.edges[x].src);
      ReachesTrans(h, g.entry, g.edges[x].src, v);
    }
  }

  lemma EdgeReaches(h: Graph, x: nat)
    requires x < |h.edges|
    ensures h.Reaches(h.edges[x].src, h.edges[x].dest)
  {
    ReachesSelf(h, h.edges[x].src);
    ReachesStep(h, h.edges[x].src, x);
  }

  /** A block that is the entry or normal is reached. */
  lemma SourceReached(g: Graph, e: nat)
    requires Sound(g) && e < |g.edges| && g.AllReachable()
    ensures g.Reaches(g.entry, g.edges[e].src)
  {
    Ends(g, e);
    if g.edges[e].src == g.entry {
      ReachesSelf(g, g.entry);
    } else {
      assert g.Normal(g.edges[e].src);
    }
  }

  lemma SplitReach(g: Graph, e: nat)
    requires Sound(g) && e < |g.edges| && g.AllReachable()
    ensures Split(g, e).AllReachable()
  {
    SplitSound(g, e);
    var h, n := Split(g, e), g.blocks;
    Ends(g, e);
    hide Split;
    EdgeReaches(h, e);
    EdgeReaches(h, |g.edges|);
    forall x | 0 <= x < |g.edges| && g.edges[x].dest != g.exit ensures h.Reaches(g.edges[x].src, g.edges[x].dest) {
      if x == e {
        ReachesTrans(h, g.edges[e].src, n, g.edges[e].dest);
      } else {
        EdgeReaches(h, x);
      }
    }
    AllKept(g, h, e, n);
  }

  /** Old blocks are still reached, and so is the new block n that edge e leads to. */
  lemma AllKept(g: Graph, h: Graph, e: nat, n: nat)
    requires Sound(g) && g.AllReachable() && h.blocks == g.blocks + 1 && n == g.blocks && h.entry == g.entry
    requires h.exit == g.exit
    requires forall x :: 0 <= x < |g.edges| && g.edges[x].dest != g.exit ==> h.Reaches(g.edges[x].src, g.edges[x].dest)
    requires e < |g.edges| && h.Reaches(g.edges[e].src, n)
    ensures h.AllReachable()
  {
    forall b | h.Normal(b) ensures h.Reaches(h.entry, b) {
      if b == n {
        SourceReached(g, e);
        Ends(g, e);
        var es :| g.Walk(g.entry, es, g.edges[e].src);
        ReachesKept(g, h, es, g.edges[e].src);
        ReachesTrans(h, g.entry, g.edges[e].src, n);
      } else {
        assert g.Normal(b);
        var es :| g.Walk(g.entry, es, b);
        ReachesKept(g, h, es, b);
      }
    }
  }

  // ---------- all edges into the exit gathered ----------

  /** While the edges into the exit are redirected to the new block n. */
  ghost predicate Moving(g: Graph, h: Graph)
    requires Sound(g)
  {
    && Sound(h) && h.blocks == g.blocks + 1 && |h.edges| == |g.edges| && h.entry == g.entry && h.exit == g.exit
    && (forall x: nat :: x < |g.edges| ==>
         h.edges[x] == if g.edges[x].dest == g.exit && x !in h.preds[g.exit] then Edge(g.edges[x].src, g.blocks)
           else g.edges[x])
    && (forall b :: 0 <= b < g.blocks ==>
         multiset(h.succs[b]) == multiset(g.succs[b]) && |h.succs[b]| == |g.succs[b]|
           && (|g.succs[b]| == 1 ==> h.succs[b] == g.succs[b]))
    && (forall b :: 0 <= b < g.blocks && b != g.exit ==> |h.preds[b]| == |g.preds[b]|)
    && h.succs[g.blocks] == []
  }

  lemma MovingStart(g: Graph)
    requires Sound(g)
    ensures Moving(g, AddBlock(g))
  {
    AddBlockSound(g);
    forall x: nat | x < |g.edges| && g.edges[x].dest == g.exit ensures x in AddBlock(g).preds[g.exit] {
      assert x in g.preds[g.exit];
    }
  }

  lemma MovingStep(g: Graph, h: Graph, e: nat)
    requires Sound(g) && Moving(g, h) && e in h.preds[g.exit]
    ensures e < |h.edges| && h.edges[e].src < |h.succs| && h.edges[e].dest == g.exit && g.exit != g.blocks
    ensures |h.preds| == g.blocks + 1
    ensures Moving(g, Redirect(h, e, g.blocks)) && |Redirect(h, e, g.blocks).preds[g.exit]| < |h.preds[g.exit]|
  {
    var n := g.blocks;
    assert e < |h.edges| && h.edges[e].dest == g.exit;
    RedirectSound(h, e, n);
    Ends(h, e);
    var k, u := Redirect(h, e, n), h.edges[e].src;
    assert g.edges[e].src == u && u != n by {
      assert e in h.succs[u];
    }
    SameSize(g.succs[u], k.succs[u]);
    assert e !in k.preds[g.exit] && forall x :: x in k.preds[g.exit] <==> x in h.preds[g.exit] && x != e by {
      WithoutList(h.preds[g.exit], e);
    }
    hide Sound, Without;
    assert k.preds[g.exit] == Without(h.preds[g.exit], e);
  }

  /** The second case of split_critical_edges: a block before the exit, entered by all edges
      that entered the exit. */
  method Collect(g: Graph) returns (h: Graph)
    requires Sound(g)
    ensures Gathered(g, h)
  {
    hide Sound, Redirect, AddBlock, Moving;
    MovingStart(g);
    Lists(g, 0);
    h := AddBlock(g);
    var n := g.blocks;
    MovingFacts(g, h);
    while h.preds[h.exit] != []
      invariant Moving(g, h) && |h.preds| == |h.succs| == n + 1 && h.exit == g.exit < n
      decreases |h.preds[h.exit]|
    {
      var e := h.preds[h.exit][0];
      MovingStep(g, h, e);
      h := Redirect(h, e, n);
      MovingFacts(g, h);
    }
    GatheredFrom(g, h);
    h := MakeEdge(h, n, h.exit);
  }

  lemma MovingFacts(g: Graph, h: Graph)
    requires Sound(g) && Moving(g, h)
    ensures |h.preds| == |h.succs| == g.blocks + 1 && h.exit == g.exit < g.blocks
  {
  }

  ghost predicate Gathered(g: Graph, h: Graph)
    requires Sound(g)
  {
    && Sound(h) && h.blocks == g.blocks + 1 && |h.edges| == |g.edges| + 1 && h.entry == g.entry && h.exit == g.exit
    && (forall x: nat :: x < |g.edges| ==>
           h.edges[x] == if g.edges[x].dest == g.exit then Edge(g.edges[x].src, g.blocks) else g.edges[x])
    && (forall b :: 0 <= b < g.blocks ==>
         multiset(h.succs[b]) == multiset(g.succs[b]) && |h.succs[b]| == |g.succs[b]|
           && (|g.succs[b]| == 1 ==> h.succs[b] == g.succs[b]))
    && (forall b :: 0 <= b < g.blocks && b != g.exit ==> |h.preds[b]| == |g.preds[b]|)
    && h.succs[g.blocks] == [|g.edges|] && h.edges[|g.edges|] == Edge(g.blocks, g.exit) && |h.preds[g.exit]| == 1
  }

  lemma GatheredFrom(g: Graph, h: Graph)
    requires Sound(g) && Moving(g, h) && h.preds[g.exit] == []
    ensures g.blocks < |h.succs| && g.exit < |h.preds| && Gathered(g, MakeEdge(h, g.blocks, g.exit))
  {
    MakeEdgeSound(h, g.blocks, g.exit);
  }

  lemma GatherNext(g0: Graph, g: Graph, todo: set<nat>, h: Graph)
    requires State(g0, g, 0, todo) && Gathered(g, h)
    ensures forall k :: g0.blocks <= k < g.blocks ==>
              |h.succs[k]| == 1 && Next(h, k) == if Next(g, k) == g.exit then g.blocks else Next(g, k)
    ensures |h.succs[g.blocks]| == 1 && Next(h, g.blocks) == g.exit
  {
    forall k | g0.blocks <= k < g.blocks
      ensures |h.succs[k]| == 1 && Next(h, k) == if Next(g, k) == g.exit then g.blocks else Next(g, k)
    {
      assert h.succs[k] == g.succs[k] && g.succs[k][0] in g.succs[k];
    }
  }

  /** Gathering the edges into the exit keeps the state, and can happen only once. */
  lemma CollectKeeps(g0: Graph, g: Graph, c: nat, todo: set<nat>, h: Graph)
    requires State(g0, g, c, todo) && Gathered(g, h) && |g.preds[g.exit]| >= 2
    ensures c == 0 && State(g0, h, g.blocks, todo)
    ensures forall b: nat :: Visited(g, b) ==> Visited(h, b)
  {
    GatherNext(g0, g, todo, h);
    GatherFlow(g0, g, todo, h);
    GatherShape(g0, g, todo, h);
    GatherReach(g, h);
    forall b: nat | Visited(g, b) ensures Visited(h, b) {
      GatherVisited(g0, g, todo, h, b);
    }
  }

  lemma CollectSpares(g0: Graph, g: Graph, c: nat, todo: set<nat>, h: Graph)
    requires State(g0, g, c, todo) && Gathered(g, h) && |g.preds[g.exit]| >= 2 && c == 0
    requires Spared(g0, g) && SameCounts(g0, g, c)
    ensures Spared(g0, h) && SameCounts(g0, h, g.blocks)
  {
    hide Graph.AllReachable, Shape, Collector;
    forall e: nat | e < |g0.edges| ensures h.edges[e].dest == g0.edges[e].dest || Crowded(g0, e) {
      assert JumpsTo(g, g0.blocks, g.edges[e].dest, g0.edges[e].dest, 2);
    }
  }

  lemma GatherFlow(g0: Graph, g: Graph, todo: set<nat>, h: Graph)
    requires State(g0, g, 0, todo) && Gathered(g, h)
    ensures SameFlow(g0, h)
  {
    GatherNext(g0, g, todo, h);
    forall x | 0 <= x < |g0.edges|
      ensures h.edges[x].src == g0.edges[x].src && JumpsTo(h, g0.blocks, h.edges[x].dest, g0.edges[x].dest, 2)
    {
      var d, t := g.edges[x].dest, g0.edges[x].dest;
      assert JumpsTo(g, g0.blocks, d, t, 2);
      assert JumpsTo(h, g0.blocks, g0.exit, g0.exit, 0);
      assert JumpsTo(h, g0.blocks, g.blocks, g0.exit, 1);
      if d >= g0.blocks {
        assert JumpsTo(g, g0.blocks, Next(g, d), t, 1);
        assert Next(g, d) < g0.blocks && Next(g, d) == t;
        assert JumpsTo(h, g0.blocks, Next(h, d), t, 1);
      }
    }
  }

  lemma GatherShape(g0: Graph, g: Graph, todo: set<nat>, h: Graph)
    requires State(g0, g, 0, todo) && Gathered(g, h) && SameFlow(g0, h) && |g.preds[g.exit]| >= 2
    ensures Collector(g0, h, g.blocks) && Shape(g0, h, g.blocks, todo)
  {
    GatherNext(g0, g, todo, h);
    forall e: nat | e < |g0.edges| && e !in todo ensures |h.preds[h.edges[e].dest]| == 1 {
      assert |g.preds[g.edges[e].dest]| == 1;
      assert g.edges[e].dest != g.exit;
    }
  }

  lemma GatherReach(g: Graph, h: Graph)
    requires Sound(g) && Gathered(g, h) && g.AllReachable() && |g.preds[g.exit]| >= 2
    ensures h.AllReachable()
  {
    forall x | 0 <= x < |g.edges| && g.edges[x].dest != g.exit ensures h.Reaches(g.edges[x].src, g.edges[x].dest) {
      EdgeReaches(h, x);
    }
    var e := g.preds[g.exit][0];
    assert e in g.preds[g.exit];
    EdgeReaches(h, e);
    AllKept(g, h, e, g.blocks);
  }

  lemma GatherVisited(g0: Graph, g: Graph, todo: set<nat>, h: Graph, b: nat)
    requires State(g0, g, 0, todo) && Gathered(g, h) && |g.preds[g.exit]| >= 2 && Visited(g, b)
    ensures Visited(h, b)
  {
    forall x | 0 <= x < |h.edges| && h.edges[x].src < b
      ensures Plain(h, x) && (h.edges[x].dest == h.exit ==> |h.preds[h.exit]| < 2)
    {
      if x < |g.edges| {
        Ends(g, x);
        assert Plain(g, x);
      }
    }
  }

  // ---------- the pass ----------

  ghost predicate Fine(g: Graph, e: nat)
    requires Sound(g)
  {
    e < |g.edges| && Plain(g, e) && (g.edges[e].dest == g.exit ==> |g.preds[g.exit]| < 2)
  }

  /** A position of the list after the element at position k has gone to the end. */
  lemma {:induction false} MovedToEnd(s: seq<nat>, k: nat)
    requires Once(s) && k < |s|
    ensures Without(s, s[k]) == s[..k] + s[k + 1..]
  {
    if k > 0 {
      assert s[0] != s[k];
      assert s[1..][k - 1] == s[k];
      assert s[1..][..k - 1] == s[1..k] && s[1..][k..] == s[k + 1..];
      MovedToEnd(s[1..], k - 1);
      assert s[..k] == [s[0]] + s[1..k];
    }
  }

  lemma SplitFine(g0: Graph, g: Graph, c: nat, todo: set<nat>, b: nat, k: nat)
    requires State(g0, g, c, todo) && b < g.blocks && k < |g.succs[b]| && g.succs[b][k] < |g.edges|
    requires g.edges[g.succs[b][k]].src == b && !Plain(g, g.succs[b][k])
    requires forall i :: 0 <= i < k ==> Fine(g, g.succs[b][i])
    ensures var e := g.succs[b][k];
            var h := Split(g, e);
            && Sound(h) && h.blocks == g.blocks + 1 && |h.succs[b]| == |g.succs[b]| && h.succs[b][|g.succs[b]| - 1] == e
            && Fine(h, e)
            && forall i :: 0 <= i < k ==> Fine(h, h.succs[b][i])
  {
    var e := g.succs[b][k];
    var s := g.succs[b];
    SplitList(g, b, k);
    hide Split, Without, SameFlow, Collector, Shape, Plain, Graph.AllReachable;
    forall i | 0 <= i < k ensures Fine(Split(g, e), Split(g, e).succs[b][i]) {
      FineKept(g, e, s[i]);
    }
  }

  lemma SplitList(g: Graph, b: nat, k: nat)
    requires Sound(g) && b < g.blocks && k < |g.succs[b]| && g.succs[b][k] < |g.edges|
    requires g.edges[g.succs[b][k]].src == b
    ensures var e := g.succs[b][k];
            var h, s := Split(g, e), g.succs[b];
            && Sound(h) && h.blocks == g.blocks + 1 && |h.succs[b]| == |s| && h.succs[b][|s| - 1] == e && Fine(h, e)
            && forall i :: 0 <= i < k ==> h.succs[b][i] == s[i] != e
  {
    var e, s := g.succs[b][k], g.succs[b];
    ListOnce(g, b);
    SplitSound(g, e);
    MovedToEnd(s, k);
    MovedAt(s, k);
    SplitSettled(g, e);
    hide Split, Without, Sound, Fine;
  }

  lemma ListOnce(g: Graph, b: nat)
    requires Sound(g) && b < g.blocks
    ensures Once(g.succs[b])
  {
  }

  lemma MovedAt(s: seq<nat>, k: nat)
    requires Once(s) && k < |s|
    ensures var t := s[..k] + s[k + 1..] + [s[k]];
            |t| == |s| && t[|s| - 1] == s[k] && forall i :: 0 <= i < k ==> t[i] == s[i] != s[k]
  {
  }

  lemma SplitSettled(g: Graph, e: nat)
    requires Sound(g) && e < |g.edges|
    ensures Sound(Split(g, e)) && Fine(Split(g, e), e)
  {
    SplitSound(g, e);
    hide Split, Without, Sound;
    Ends(g, e);
  }

  lemma FineKept(g: Graph, e: nat, x: nat)
    requires Sound(g) && e < |g.edges| && x != e && Fine(g, x)
    ensures Sound(Split(g, e)) && Fine(Split(g, e), x)
  {
    hide Without;
    SplitSound(g, e);
    Ends(g, x);
    hide Split, Sound;
  }

  /** split_critical_edges: the blocks in the order of the list, to whose end the new ones are
      added, and the ways out of each. An edge that is moved to the end while it is last ends
      the inner loop. */
  method SplitCriticalEdges(g0: Graph) returns (g: Graph)
    requires g0.Valid() && g0.AllReachable()
    ensures Sound(g) && g.Valid() && NoCriticalEdges(g) && SameFlow(g0, g) && g.AllReachable()
    ensures g0.succs[g0.entry] != [] ==> g.succs[g.entry] != []
    ensures Spared(g0, g)
  {
    hide Spared, SameCounts;
    hide Sound, State, Visited, Fine, Split, Plain, JumpsTo, Graph.Valid, Graph.AllReachable;
    ghost var c, todo := 0, Below(|g0.edges|);
    g := g0;
    Begin(g0, todo);
    var b := 0;
    while b < g.blocks
      invariant State(g0, g, c, todo) && Sound(g) && b <= g.blocks && Visited(g, b)
      invariant Spared(g0, g) && SameCounts(g0, g, c)
      decreases |todo| + if c == 0 then 1 else 0, g.blocks - b
    {
      g, c, todo := VisitBlock(g0, g, b, c, todo);
      b := b + 1;
    }
    End(g0, g, c, todo);
  }

  method VisitBlock(ghost g0: Graph, g1: Graph, b: nat, ghost c1: nat, ghost todo1: set<nat>)
    returns (g: Graph, ghost c: nat, ghost todo: set<nat>)
    requires State(g0, g1, c1, todo1) && Sound(g1) && b < g1.blocks && Visited(g1, b)
    requires Spared(g0, g1) && SameCounts(g0, g1, c1)
    ensures Spared(g0, g) && SameCounts(g0, g, c)
    ensures State(g0, g, c, todo) && Sound(g) && g1.blocks <= g.blocks && Visited(g, b + 1)
    ensures (g == g1 && c == c1 && todo == todo1)
              || |todo| + (if c == 0 then 1 else 0) < |todo1| + (if c1 == 0 then 1 else 0)
  {
    hide Spared, SameCounts;
    hide Sound, State, Visited, Fine, Split, JumpsTo;
    g, c, todo := g1, c1, todo1;
    var k := 0;
    Lists(g, b);
    while k < |g.succs[b]|
      invariant State(g0, g, c, todo) && Sound(g) && |g.succs| == |g.preds| == g.blocks && b < g1.blocks <= g.blocks
      invariant Visited(g, b) && k <= |g.succs[b]|
      invariant Spared(g0, g) && SameCounts(g0, g, c)
      invariant forall i :: 0 <= i < k ==> Fine(g, g.succs[b][i])
      invariant (g == g1 && c == c1 && todo == todo1)
                  || |todo| + (if c == 0 then 1 else 0) < |todo1| + (if c1 == 0 then 1 else 0)
      decreases |todo| + (if c == 0 then 1 else 0), |g.succs[b]| - k
    {
      var e := g.succs[b][k];
      var last := k + 1 == |g.succs[b]|;
      EdgeAt(g, b, k);
      if |g.succs[g.edges[e].src]| >= 2 && |g.preds[g.edges[e].dest]| >= 2 {
        SplitKeeps(g0, g, c, todo, e);
        SplitFine(g0, g, c, todo, b, k);
        SplitSpares(g0, g, c, todo, e);
        g := Split(g, e);
        todo := todo - {e};
        Lists(g, b);
        if last {
          AllFine(g, b, k);
          return;
        }
      } else if |g.preds[g.edges[e].dest]| >= 2 && g.edges[e].dest == g.exit {
        var h := Collect(g);
        CollectKeeps(g0, g, c, todo, h);
        CollectSpares(g0, g, c, todo, h);
        CollectFine(g, h, b);
        c := g.blocks;
        g := h;
        Lists(g, b);
        AllVisited(g, b);
        return;
      } else {
        PlainFine(g, e);
        k := k + 1;
      }
    }
    AllVisited(g, b);
  }

  lemma Begin(g0: Graph, todo: set<nat>)
    requires g0.Valid() && g0.AllReachable() && todo == Below(|g0.edges|)
    ensures State(g0, g0, 0, todo) && Sound(g0) && Visited(g0, 0) && Spared(g0, g0) && SameCounts(g0, g0, 0)
  {
    ValidSound(g0);
  }

  lemma Lists(g: Graph, b: nat)
    requires Sound(g)
    ensures |g.succs| == |g.preds| == g.blocks
  {
  }

  lemma EdgeAt(g: Graph, b: nat, k: nat)
    requires Sound(g) && b < g.blocks && k < |g.succs[b]|
    ensures var e := g.succs[b][k];
              e < |g.edges| && g.edges[e].src == b && g.edges[e].dest < g.blocks && |g.succs| == |g.preds| == g.blocks
  {
    assert g.succs[b][k] in g.succs[b];
  }

  lemma PlainFine(g: Graph, e: nat)
    requires Sound(g) && e < |g.edges| && Plain(g, e) && !(|g.preds[g.edges[e].dest]| >= 2 && g.edges[e].dest == g.exit)
    ensures Fine(g, e)
  {
  }

  lemma CollectFine(g: Graph, h: Graph, b: nat)
    requires Sound(g) && Gathered(g, h) && b < g.blocks && |g.succs[b]| < 2
    ensures forall i :: 0 <= i < |h.succs[b]| ==> Fine(h, h.succs[b][i])
  {
    forall i | 0 <= i < |h.succs[b]| ensures Fine(h, h.succs[b][i]) {
      EdgeAt(h, b, i);
    }
  }

  lemma AllVisited(g: Graph, b: nat)
    requires Sound(g) && b < g.blocks && Visited(g, b) && forall i :: 0 <= i < |g.succs[b]| ==> Fine(g, g.succs[b][i])
    ensures Visited(g, b + 1)
  {
    forall e | 0 <= e < |g.edges| && g.edges[e].src < b + 1
      ensures Plain(g, e) && (g.edges[e].dest == g.exit ==> |g.preds[g.exit]| < 2)
    {
      if g.edges[e].src == b {
        assert e in g.succs[b];
        var i :| 0 <= i < |g.succs[b]| && g.succs[b][i] == e;
        assert Fine(g, g.succs[b][i]);
      }
    }
  }

  lemma AllFine(g: Graph, b: nat, k: nat)
    requires Sound(g) && b < g.blocks && |g.succs[b]| == k + 1 && Visited(g, b) && Fine(g, g.succs[b][k])
    requires forall i :: 0 <= i < k ==> Fine(g, g.succs[b][i])
    ensures Visited(g, b + 1)
  {
    AllVisited(g, b);
  }

  lemma End(g0: Graph, g: Graph, c: nat, todo: set<nat>)
    requires State(g0, g, c, todo) && Visited(g, g.blocks)
    ensures g.Valid() && NoCriticalEdges(g) && SameFlow(g0, g) && g.AllReachable()
    ensures |g.succs[g.entry]| == |g0.succs[g.entry]|
  {
    SoundValid(g);
    forall e | 0 <= e < |g.edges| ensures |g.succs[g.edges[e].src]| < 2 || |g.preds[g.edges[e].dest]| < 2 {
      assert Plain(g, e);
    }
    if g.preds[g.exit] != [] {
      var e := g.preds[g.exit][0];
      assert e in g.preds[g.exit];
      Ends(g, e);
      assert Plain(g, e);
    }
    SameSize(g.succs[g.entry], g0.succs[g.entry]);
  }
}
