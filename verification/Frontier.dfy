/** The immediate dominator by backward breadth-first search, and the dominance
    frontiers by walking up from each predecessor of a join (opt/ssa.c). */
module Frontier {
  import opened Cfg
  import opened Dfs
  import opened Dominance
  import MustFlow

  datatype MaybeBlock = NoBlock | Block(block: nat)

  /** A walk to b none of whose blocks but the first strictly dominates b. */
  ghost predicate CleanWalk(g: Graph, es: seq<nat>, v: nat, b: nat) {
    g.Walk(v, es, b) && forall c: nat :: Visits(g, v, es, c) && c != v ==> !StrictlyDominates(g, c, b)
  }

  ghost predicate Clean(g: Graph, v: nat, b: nat) {
    exists es :: CleanWalk(g, es, v, b)
  }

  lemma CleanStep(g: Graph, v: nat, b: nat, e: nat)
    requires e < |g.edges| && g.edges[e].dest == v && Clean(g, v, b) && !StrictlyDominates(g, v, b)
    ensures Clean(g, g.edges[e].src, b)
  {
    var es :| CleanWalk(g, es, v, b);
    var n := g.edges[e].src;
    WalkStep(g, n, [], e);
    assert [] + [e] == [e];
    WalkConcat(g, n, [e], v, es, b);
    forall c: nat | Visits(g, n, [e] + es, c) && c != n ensures !StrictlyDominates(g, c, b) {
      VisitsConcat(g, n, [e], v, es, b, c);
      assert [e][..0] == [];
    }
    assert CleanWalk(g, [e] + es, n, b);
  }

  /** Every strict dominator of b dominates a block that reaches b cleanly. */
  lemma CleanIsBelow(g: Graph, v: nat, b: nat, d: nat)
    requires Clean(g, v, b) && StrictlyDominates(g, d, b)
    ensures Dominates(g, d, v)
  {
    var es :| CleanWalk(g, es, v, b);
    forall ws | g.Walk(g.entry, ws, v) ensures Visits(g, g.entry, ws, d) {
      WalkConcat(g, g.entry, ws, v, es, b);
      VisitsConcat(g, g.entry, ws, v, es, b, d);
      VisitsEnds(g, g.entry, ws, v);
    }
  }

  /** A set of blocks that contains b and, with a block, all its predecessors,
      contains every block of every walk to b. */
  lemma {:induction false} ClosedBackwards(g: Graph, visited: set<nat>, u: nat, es: seq<nat>, b: nat, d: nat)
    requires g.Valid() && g.Walk(u, es, b) && Visits(g, u, es, d) && b in visited && u < g.blocks
    requires forall e :: 0 <= e < |g.edges| && g.edges[e].dest in visited ==> g.edges[e].src in visited
    ensures d in visited
    decreases |es|
  {
    if es != [] && d != b {
      ClosedBackwards(g, visited, u, es[..|es| - 1], g.edges[es[|es| - 1]].src, d);
    }
  }

  lemma StartClean(g: Graph, b: nat)
    ensures Clean(g, b, b)
  {
    assert CleanWalk(g, [], b, b);
  }

  lemma ImmediateWhenClean(g: Graph, b: nat, v: nat)
    requires Clean(g, v, b) && StrictlyDominates(g, v, b)
    ensures ImmediatelyDominates(g, v, b)
  {
    forall c: nat | StrictlyDominates(g, c, b) ensures Dominates(g, c, v) {
      CleanIsBelow(g, v, b, c);
    }
  }

  /** A search that runs dry has met the entry; so the block was the entry itself. */
  lemma NothingLeft(g: Graph, visited: set<nat>, b: nat)
    requires g.Valid() && Live(g, b) && b in visited
    requires forall v :: v in visited ==> !StrictlyDominates(g, v, b)
    requires forall e :: 0 <= e < |g.edges| && g.edges[e].dest in visited ==> g.edges[e].src in visited
    ensures b == g.entry
  {
    hide Graph.ListsDistinct;
    var es :| g.Walk(g.entry, es, b);
    VisitsEnds(g, g.entry, es, b);
    ClosedBackwards(g, visited, g.entry, es, b, g.entry);
    EntryDominates(g, b);
  }

  /** The neighbours of v against the edges that have not been visited join the queue. */
  method Expand(g: Graph, v: nat, visited: set<nat>, queue: seq<nat>) returns (visited': set<nat>, queue': seq<nat>)
    requires g.Valid() && v < g.blocks && visited <= Below(g.blocks)
    ensures forall n :: n in visited' <==>
              n in visited || exists k :: 0 <= k < |g.preds[v]| && g.edges[g.preds[v][k]].src == n
    ensures visited' <= Below(g.blocks) && visited <= visited'
    ensures forall n :: n in queue' <==> n in queue || n in visited' - visited
    ensures visited' == visited ==> queue' == queue
  {
    hide Graph.ListsDistinct;
    visited', queue' := visited, queue;
    var k := 0;
    while k < |g.preds[v]|
      invariant 0 <= k <= |g.preds[v]|
      invariant forall n :: n in visited' <==>
                  n in visited || exists j :: 0 <= j < k && g.edges[g.preds[v][j]].src == n
      invariant visited' <= Below(g.blocks)
      invariant forall n :: n in queue' <==> n in queue || n in visited' - visited
      invariant visited' == visited ==> queue' == queue
    {
      var n := g.edges[g.preds[v][k]].src;
      if n !in visited' {
        visited' := visited' + {n};
        queue' := queue' + [n];
      }
      k := k + 1;
    }
  }

  lemma ExpandClean(g: Graph, v: nat, b: nat, n: nat)
    requires g.Valid() && v < g.blocks && Clean(g, v, b) && !StrictlyDominates(g, v, b)
    requires exists k :: 0 <= k < |g.preds[v]| && g.edges[g.preds[v][k]].src == n
    ensures Clean(g, n, b)
  {
    hide Graph.ListsDistinct;
    var k :| 0 <= k < |g.preds[v]| && g.edges[g.preds[v][k]].src == n;
    CleanStep(g, v, b, g.preds[v][k]);
  }

  lemma InPreds(g: Graph, e: nat)
    requires g.Valid() && e < |g.edges|
    ensures |g.preds| == g.blocks && g.edges[e].dest < g.blocks
    ensures var v := g.edges[e].dest;
            exists k :: 0 <= k < |g.preds[v]| && g.preds[v][k] < |g.edges|
              && g.edges[g.preds[v][k]].src == g.edges[e].src
  {
    hide Graph.ListsDistinct;
    var v := g.edges[e].dest;
    assert e in g.preds[v];
    var k :| 0 <= k < |g.preds[v]| && g.preds[v][k] == e;
  }

  /** get_immediate_dominator: breadth-first from bb against the edges; the first
      strict dominator taken from the queue is the answer. */
  method GetImmediateDominator(g: Graph, dom: seq<set<nat>>, bb: nat) returns (res: MaybeBlock)
    requires g.Valid() && DomExact(g, dom) && Live(g, bb)
    ensures res.Block? ==> ImmediatelyDominates(g, res.block, bb)
    ensures res.NoBlock? <==> bb == g.entry
  {
    hide Graph.ListsDistinct, Clean, Dominates;
    res := NoBlock;
    var visited: set<nat> := {bb};
    var queue: seq<nat> := [bb];
    StartClean(g, bb);
    while queue != []
      invariant bb in visited && visited <= Below(g.blocks)
      invariant forall v :: v in queue ==> v in visited
      invariant forall v :: v in visited ==> Clean(g, v, bb)
      invariant forall v :: v in visited && v !in queue ==> !StrictlyDominates(g, v, bb)
      invariant forall e :: 0 <= e < |g.edges| && g.edges[e].dest in visited && g.edges[e].dest !in queue ==>
                  g.edges[e].src in visited
      decreases Below(g.blocks) - visited, |queue|
    {
      var v := queue[0];
      if v in dom[bb] && bb != v {
        ImmediateWhenClean(g, bb, v);
        if bb == g.entry {
          EntryHasNoDominator(g, v);
        }
        return Block(v);
      }
      var rest := queue[1..];
      assert queue == [v] + rest;
      assert !StrictlyDominates(g, v, bb) && v in visited;
      ghost var before := visited;
      visited, queue := Expand(g, v, visited, rest);
      forall n | n in visited ensures Clean(g, n, bb) {
        if n !in before {
          ExpandClean(g, v, bb, n);
        }
      }
      forall e | 0 <= e < |g.edges| && g.edges[e].dest == v ensures g.edges[e].src in visited {
        InPreds(g, e);
      }
    }
    NothingLeft(g, visited, bb);
  }

  // ---------- frontiers ----------

  /** The immediate dominators of all live blocks (the `adjvex` fields). */
  ghost predicate IdomExact(g: Graph, idom: seq<MaybeBlock>) {
    && |idom| == g.blocks
    && forall b: nat :: Live(g, b) ==>
         (idom[b].NoBlock? <==> b == g.entry) && (idom[b].Block? ==> ImmediatelyDominates(g, idom[b].block, b))
  }

  lemma DominatorIsLive(g: Graph, d: nat, b: nat)
    requires g.Valid() && Live(g, b) && Dominates(g, d, b)
    ensures Live(g, d)
  {
    hide Graph.ListsDistinct;
    var es :| g.Walk(g.entry, es, b);
    VisitsBlocks(g, g.entry, es, b, d);
    var i := PrefixTo(g, g.entry, es, b, d);
  }

  /** A dominator is the block itself or dominates its immediate dominator. */
  lemma DominatorsChain(g: Graph, idom: seq<MaybeBlock>, x: nat, b: nat)
    requires g.Valid() && IdomExact(g, idom) && Live(g, b) && b != g.entry
    ensures idom[b].Block? && Live(g, idom[b].block) && idom[b].block != b
    ensures Dominates(g, x, b) <==> x == b || Dominates(g, x, idom[b].block)
  {
    var d := idom[b].block;
    DominatorIsLive(g, d, b);
    if x == b {
      DominatesSelf(g, b);
    } else if Dominates(g, x, d) {
      DominatesTrans(g, x, d, b);
    }
  }

  lemma IdomShrinks(g: Graph, dom: seq<set<nat>>, idom: seq<MaybeBlock>, b: nat)
    requires g.Valid() && DomExact(g, dom) && IdomExact(g, idom) && Live(g, b) && b != g.entry
    ensures idom[b].Block? && Live(g, idom[b].block) && |dom[idom[b].block]| < |dom[b]|
  {
    var d := idom[b].block;
    DominatorsChain(g, idom, b, b);
    assert b !in dom[d] by {
      if b in dom[d] {
        var es :| g.Walk(g.entry, es, b);
        DominatesAntisym(g, b, d, es);
      }
    }
    DominatesSelf(g, b);
    forall x | x in dom[d] ensures x in dom[b] {
      DominatorsChain(g, idom, x, b);
    }
    assert b in dom[b];
    MustFlow.CardinalityMonotone(dom[d], dom[b]);
  }

  /** The blocks that are above p or p itself and strictly below top. */
  ghost predicate Segment(g: Graph, p: nat, top: nat, x: nat) {
    Dominates(g, x, p) && StrictlyDominates(g, top, x)
  }

  /** Below a join, the segments from its predecessors up to its immediate dominator are its frontier blocks. */
  lemma SegmentIsFrontier(g: Graph, b: nat, e: nat, top: nat, x: nat)
    requires g.Valid() && Live(g, b) && e < |g.edges| && g.edges[e].dest == b && Live(g, g.edges[e].src)
    requires ImmediatelyDominates(g, top, b) && Dominates(g, x, g.edges[e].src)
    ensures Segment(g, g.edges[e].src, top, x) <==> !StrictlyDominates(g, x, b)
  {
    hide Graph.ListsDistinct;
    var p := g.edges[e].src;
    DominatorIsLive(g, x, p);
    DominatorIsLive(g, top, b);
    DominatesSources(g, top, b, e);
    if Segment(g, p, top, x) && StrictlyDominates(g, x, b) {
      assert Dominates(g, x, top);
      var es :| g.Walk(g.entry, es, top);
      DominatesAntisym(g, top, x, es);
    }
    if !StrictlyDominates(g, x, b) {
      Comparable(g, x, top, p);
      if x == top || Dominates(g, x, top) {
        if x != top { DominatesTrans(g, x, top, b); }
        NotAbove(g, x, top, b);
      }
    }
  }

  lemma NotAbove(g: Graph, x: nat, top: nat, b: nat)
    requires Live(g, b) && ImmediatelyDominates(g, top, b) && g.Valid()
    requires Dominates(g, x, top) && Dominates(g, x, b)
    ensures StrictlyDominates(g, x, b)
  {
    if x == b {
      var es :| g.Walk(g.entry, es, b);
      DominatesAntisym(g, b, top, es);
    }
  }

  /** Two dominators of the same live block: one dominates the other. */
  lemma Comparable(g: Graph, c: nat, d: nat, b: nat)
    requires Dominates(g, c, b) && Dominates(g, d, b) && Live(g, b)
    ensures Dominates(g, c, d) || Dominates(g, d, c)
  {
    if !Dominates(g, c, d) && !Dominates(g, d, c) {
      var es :| g.Walk(g.entry, es, b);
      ComparableOn(g, c, d, b, es);
    }
  }

  lemma {:induction false} ComparableOn(g: Graph, c: nat, d: nat, b: nat, es: seq<nat>)
    requires Dominates(g, c, b) && Dominates(g, d, b) && g.Walk(g.entry, es, b)
    ensures Dominates(g, c, d) || Dominates(g, d, c)
    decreases |es|
  {
    // cut the walk at its last visit to c, then at its last visit to d: the one that is
    // met last from b is reached only through the other
    var i := LastVisit(g, g.entry, es, b, c);
    var j := LastVisit(g, g.entry, es, b, d);
    if i <= j {
      forall ws | g.Walk(g.entry, ws, d) ensures Visits(g, g.entry, ws, c) {
        Detour(g, c, d, b, es, i, j, ws);
      }
    } else {
      forall ws | g.Walk(g.entry, ws, c) ensures Visits(g, g.entry, ws, d) {
        Detour(g, d, c, b, es, j, i, ws);
      }
    }
  }

  /** The last time the walk is at d. */
  lemma {:induction false} LastVisit(g: Graph, u: nat, es: seq<nat>, v: nat, d: nat) returns (i: nat)
    requires g.Walk(u, es, v) && Visits(g, u, es, d)
    ensures i <= |es| && g.Walk(u, es[..i], d) && g.Walk(d, es[i..], v)
    ensures forall k :: 0 <= k < |es| ==> es[k] < |g.edges|
    ensures forall k :: i <= k < |es| ==> g.edges[es[k]].dest != d
    decreases |es|
  {
    WalkEdges(g, u, es, v);
    if es == [] {
      i := 0;
    } else if g.edges[es[|es| - 1]].dest == d {
      i := |es|;
      assert es[..i] == es;
      assert es[i..] == [];
    } else {
      var n := |es| - 1;
      i := LastVisit(g, u, es[..n], g.edges[es[n]].src, d);
      assert es[..n][..i] == es[..i];
      assert es[i..] == es[..n][i..] + [es[n]];
      WalkStep(g, d, es[..n][i..], es[n]);
      forall k | i <= k < |es| ensures g.edges[es[k]].dest != d {
        if k < n { assert es[..n][k] == es[k]; }
      }
    }
  }

  /** c dominates b; the tail of the walk from its last visit of d does not meet c;
      so any walk to d meets c. */
  lemma Detour(g: Graph, c: nat, d: nat, b: nat, es: seq<nat>, i: nat, j: nat, ws: seq<nat>)
    requires Dominates(g, c, b) && i <= j <= |es| && g.Walk(g.entry, ws, d) && g.Walk(d, es[j..], b)
    requires forall k :: 0 <= k < |es| ==> es[k] < |g.edges|
    requires forall k :: i <= k < |es| ==> g.edges[es[k]].dest != c
    ensures Visits(g, g.entry, ws, c)
  {
    WalkConcat(g, g.entry, ws, d, es[j..], b);
    VisitsConcat(g, g.entry, ws, d, es[j..], b, c);
    VisitsEnds(g, g.entry, ws, d);
    if Visits(g, d, es[j..], c) {
      OnlyStart(g, d, es[j..], c);
    }
  }

  lemma {:induction false} OnlyStart(g: Graph, u: nat, es: seq<nat>, c: nat)
    requires forall k :: 0 <= k < |es| ==> es[k] < |g.edges| && g.edges[es[k]].dest != c
    requires Visits(g, u, es, c)
    ensures c == u
    decreases |es|
  {
    if es != [] {
      OnlyStart(g, u, es[..|es| - 1], c);
    }
  }

  // ---------- the runner walk ----------

  /** The frontier sets after block b has been entered along the segment from p up
      to, but not including, r. */
  ghost predicate Marked(g: Graph, df: seq<set<nat>>, df0: seq<set<nat>>, b: nat, p: nat, r: nat)
    requires |df| == |df0| == g.blocks
  {
    && (forall x :: 0 <= x < g.blocks ==> df0[x] <= df[x] <= df0[x] + {b})
    && (forall x: nat :: Live(g, x) && Dominates(g, x, p) && StrictlyDominates(g, r, x) ==> b in df[x])
    && (forall x: nat :: x < g.blocks && b in df[x] && b !in df0[x] ==>
           Live(g, x) && Dominates(g, x, p) && StrictlyDominates(g, r, x))
  }

  /** Whoever has b in its set has it everywhere above, up to the immediate dominator of b. */
  ghost predicate Upward(g: Graph, df: seq<set<nat>>, b: nat, top: nat)
    requires |df| == g.blocks
  {
    forall x: nat, y: nat ::
      Live(g, x) && b in df[x] && Dominates(g, y, x) && StrictlyDominates(g, top, y) && y < g.blocks ==>
      b in df[y]
  }

  /** The runner stands between its starting point and the immediate dominator of b. */
  ghost predicate RunnerOk(g: Graph, p: nat, r: nat, top: nat) {
    Live(g, p) && Live(g, r) && Live(g, top) && Dominates(g, r, p) && Dominates(g, top, r)
  }

  lemma RunnerMoves(g: Graph, dom: seq<set<nat>>, idom: seq<MaybeBlock>, df: seq<set<nat>>, df0: seq<set<nat>>,
                    b: nat, p: nat, r: nat, top: nat)
    requires g.Valid() && DomExact(g, dom) && IdomExact(g, idom) && |df| == |df0| == g.blocks && RunnerOk(g, p, r, top)
    requires r != top
    requires Marked(g, df, df0, b, p, r)
    ensures r != g.entry && |idom| == |dom| == g.blocks && idom[r].Block? && idom[r].block < g.blocks
    ensures |dom[idom[r].block]| < |dom[r]|
    ensures RunnerOk(g, p, idom[r].block, top)
    ensures Marked(g, df[r := df[r] + {b}], df0, b, p, idom[r].block)
  {
    hide Graph.ListsDistinct;
    if r == g.entry {
      EntryHasNoDominator(g, top);
    }
    IdomShrinks(g, dom, idom, r);
    var d := idom[r].block;
    DominatesTrans(g, d, r, p);
    DominatorsChain(g, idom, top, r);
    var df' := df[r := df[r] + {b}];
    forall x: nat | Live(g, x) && Dominates(g, x, p) && StrictlyDominates(g, d, x) ensures b in df'[x] {
      BetweenIdom(g, idom, p, r, x);
    }
    forall x: nat | x < g.blocks && b in df'[x] && b !in df0[x]
      ensures Live(g, x) && Dominates(g, x, p) && StrictlyDominates(g, d, x)
    {
      if x != r {
        DominatesTrans(g, d, r, x);
        BelowIdom(g, idom, r, x);
      }
    }
  }

  /** A dominator of p that lies strictly below the immediate dominator of r is r or lies strictly below r. */
  lemma BetweenIdom(g: Graph, idom: seq<MaybeBlock>, p: nat, r: nat, x: nat)
    requires g.Valid() && IdomExact(g, idom) && Live(g, p) && Live(g, r) && r != g.entry && Live(g, x)
    requires Dominates(g, r, p) && Dominates(g, x, p) && idom[r].Block? && StrictlyDominates(g, idom[r].block, x)
    ensures x == r || StrictlyDominates(g, r, x)
  {
    Comparable(g, x, r, p);
    if Dominates(g, x, r) && x != r {
      var es :| g.Walk(g.entry, es, x);
      assert Dominates(g, x, idom[r].block);
      DominatesAntisym(g, x, idom[r].block, es);
    }
  }

  lemma BelowIdom(g: Graph, idom: seq<MaybeBlock>, r: nat, x: nat)
    requires g.Valid() && IdomExact(g, idom) && Live(g, r) && r != g.entry && Live(g, x) && idom[r].Block?
    requires StrictlyDominates(g, r, x)
    ensures x != idom[r].block
  {
    if x == idom[r].block {
      var es :| g.Walk(g.entry, es, x);
      DominatesAntisym(g, x, r, es);
    }
  }

  /** The walk from one predecessor of a join: up the immediate dominators until the
      join's own, or until a block that already has the join in its set. */
  method WalkUp(g: Graph, ghost dom: seq<set<nat>>, idom: seq<MaybeBlock>, df: array<set<nat>>, b: nat, p: nat,
                top: nat)
    requires g.Valid() && DomExact(g, dom) && IdomExact(g, idom) && df.Length == g.blocks && b < g.blocks
    requires RunnerOk(g, p, p, top) && Upward(g, df[..], b, top)
    modifies df
    ensures Upward(g, df[..], b, top)
    ensures forall x :: 0 <= x < g.blocks ==> old(df[x]) <= df[x] <= old(df[x]) + {b}
    ensures forall x: nat :: x < g.blocks ==> (b in df[x] <==> b in old(df[x]) || Segment(g, p, top, x))
  {
    hide Graph.ListsDistinct, Dominates, DomExact, IdomExact, RunnerOk, Marked, Upward, Live;
    var r: nat := p;
    RunnerFacts(g, p, r, top);
    DomLength(g, dom, idom);
    WalkStarts(g, df[..], b, p);
    while r != top
      invariant RunnerOk(g, p, r, top) && r < g.blocks
      invariant Marked(g, df[..], old(df[..]), b, p, r)
      decreases |dom[r]|
    {
      var seen := b in df[r];
      RunnerMoves(g, dom, idom, df[..], old(df[..]), b, p, r, top);
      if seen {
        StoppedEarly(g, df[..], old(df[..]), b, p, r, top);
        return;
      }
      ghost var before := df[..];
      df[r] := df[r] + {b};
      assert df[..] == before[r := before[r] + {b}];
      r := idom[r].block;
      RunnerFacts(g, p, r, top);
    }
    ReachedTop(g, df[..], old(df[..]), b, p, top);
  }

  lemma RunnerFacts(g: Graph, p: nat, r: nat, top: nat)
    requires RunnerOk(g, p, r, top)
    ensures r < g.blocks && p < g.blocks && top < g.blocks && Live(g, p)
  {
  }

  lemma DomLength(g: Graph, dom: seq<set<nat>>, idom: seq<MaybeBlock>)
    requires DomExact(g, dom) && IdomExact(g, idom)
    ensures |dom| == |idom| == g.blocks
  {
  }

  lemma WalkStarts(g: Graph, df: seq<set<nat>>, b: nat, p: nat)
    requires |df| == g.blocks && g.Valid() && Live(g, p)
    ensures Marked(g, df, df, b, p, p)
  {
    forall x: nat | Live(g, x) && Dominates(g, x, p) && StrictlyDominates(g, p, x) ensures false {
      var es :| g.Walk(g.entry, es, p);
      DominatesAntisym(g, p, x, es);
    }
  }

  lemma ReachedTop(g: Graph, df: seq<set<nat>>, df0: seq<set<nat>>, b: nat, p: nat, top: nat)
    requires g.Valid() && |df| == |df0| == g.blocks && Marked(g, df, df0, b, p, top) && Upward(g, df0, b, top)
    requires RunnerOk(g, p, top, top)
    ensures Upward(g, df, b, top)
    ensures forall x :: 0 <= x < g.blocks ==> df0[x] <= df[x] <= df0[x] + {b}
    ensures forall x: nat :: x < g.blocks ==> (b in df[x] <==> b in df0[x] || Segment(g, p, top, x))
  {
    forall x: nat | x < g.blocks && Segment(g, p, top, x) ensures b in df[x] {
      DominatorIsLive(g, x, p);
    }
    forall x: nat, y: nat | Live(g, x) && b in df[x] && Dominates(g, y, x) && StrictlyDominates(g, top, y)
      && y < g.blocks
      ensures b in df[y]
    {
      if b !in df0[x] {
        DominatesTrans(g, y, x, p);
        DominatorIsLive(g, y, p);
      }
    }
  }

  /** A block that already has b: an earlier walk has been through here and all the way up. */
  lemma StoppedEarly(g: Graph, df: seq<set<nat>>, df0: seq<set<nat>>, b: nat, p: nat, r: nat, top: nat)
    requires g.Valid() && |df| == |df0| == g.blocks && r < g.blocks && Marked(g, df, df0, b, p, r)
    requires Upward(g, df0, b, top)
    requires RunnerOk(g, p, r, top) && r != top && b in df[r]
    ensures Upward(g, df, b, top)
    ensures forall x :: 0 <= x < g.blocks ==> df0[x] <= df[x] <= df0[x] + {b}
    ensures forall x: nat :: x < g.blocks ==> (b in df[x] <==> b in df0[x] || Segment(g, p, top, x))
  {
    hide Graph.ListsDistinct;
    assert b in df0[r];
    forall x: nat | x < g.blocks && Segment(g, p, top, x) ensures b in df[x] {
      DominatorIsLive(g, x, p);
      Comparable(g, x, r, p);
      if x != r && !Dominates(g, r, x) {
        assert b in df0[x];
      }
    }
    forall x: nat | x < g.blocks && b in df[x] && b !in df0[x] ensures Segment(g, p, top, x) {
      DominatesTrans(g, top, r, x);
      if top == x {
        var es :| g.Walk(g.entry, es, top);
        DominatesAntisym(g, top, r, es);
      }
    }
    forall x: nat, y: nat | Live(g, x) && b in df[x] && Dominates(g, y, x) && StrictlyDominates(g, top, y)
      && y < g.blocks
      ensures b in df[y]
    {
      if b !in df0[x] {
        DominatesTrans(g, y, x, p);
        assert Segment(g, p, top, y);
      }
    }
  }

  /** A block whose only incoming edge comes from itself is not live. */
  lemma {:induction false} NotOnlyItself(g: Graph, b: nat, es: seq<nat>)
    requires g.Valid() && g.Walk(g.entry, es, b) && b != g.entry && b < g.blocks
    requires forall k :: 0 <= k < |g.preds[b]| ==> g.edges[g.preds[b][k]].src == b
    ensures false
    decreases |es|
  {
    LastEdge(g, g.entry, es, b);
    NotOnlyItself(g, b, es[..|es| - 1]);
  }

  /** Only joins are in frontiers. */
  lemma SinglePredNoFrontier(g: Graph, x: nat, b: nat)
    requires g.Valid() && Live(g, b) && |g.preds[b]| < 2
    ensures !InFrontier(g, x, b)
  {
    hide Graph.ListsDistinct;
    if InFrontier(g, x, b) {
      var p := g.edges[g.preds[b][0]].src;
      forall es | g.Walk(g.entry, es, b) ensures es != [] && Visits(g, g.entry, es, x) && Visits(g, g.entry, es, p) {
        assert g.preds[g.entry] == [];
        LastEdge(g, g.entry, es, b);
        VisitsEnds(g, g.entry, es[..|es| - 1], p);
      }
      assert x == b;
      var ws :| g.Walk(g.entry, ws, b);
      DominatesAntisym(g, b, p, ws);
      NotOnlyItself(g, b, ws);
    }
  }

  /** The walks from the first k predecessors have been made. */
  ghost predicate WalkedFrom(g: Graph, df: seq<set<nat>>, df0: seq<set<nat>>, b: nat, k: nat, top: nat)
    requires g.Valid() && b < g.blocks && |df| == |df0| == g.blocks && k <= |g.preds[b]|
  {
    && Upward(g, df, b, top)
    && (forall x :: 0 <= x < g.blocks ==> df0[x] <= df[x] <= df0[x] + {b})
    && forall x: nat :: x < g.blocks ==>
         (b in df[x] <==>
           exists j :: 0 <= j < k && g.edges[g.preds[b][j]].src != g.entry
             && Segment(g, g.edges[g.preds[b][j]].src, top, x))
  }

  lemma WalkedAll(g: Graph, df: seq<set<nat>>, df0: seq<set<nat>>, b: nat, top: nat, x: nat)
    requires g.Valid() && g.AllReachable() && Live(g, b) && |df| == |df0| == g.blocks && x < g.blocks
    requires ImmediatelyDominates(g, top, b) && WalkedFrom(g, df, df0, b, |g.preds[b]|, top)
    ensures b in df[x] <==> Live(g, x) && InFrontier(g, x, b)
  {
    hide Graph.ListsDistinct;
    forall k | 0 <= k < |g.preds[b]| && Dominates(g, x, g.edges[g.preds[b][k]].src)
      ensures Live(g, x)
      ensures Segment(g, g.edges[g.preds[b][k]].src, top, x) <==> !StrictlyDominates(g, x, b)
      ensures g.edges[g.preds[b][k]].src == g.entry ==> StrictlyDominates(g, x, b)
    {
      PredLive(g, b, k);
      DominatorIsLive(g, x, g.edges[g.preds[b][k]].src);
      SegmentIsFrontier(g, b, g.preds[b][k], top, x);
      if g.edges[g.preds[b][k]].src == g.entry {
        EntryHasNoDominator(g, x);
        EntryDominates(g, b);
      }
    }
  }

  lemma PredLive(g: Graph, b: nat, k: nat)
    requires g.Valid() && g.AllReachable() && b < g.blocks && k < |g.preds[b]|
    ensures g.preds[b][k] < |g.edges| && Live(g, g.edges[g.preds[b][k]].src) && b != g.entry
    ensures g.edges[g.preds[b][k]].dest == b
    ensures Live(g, b)
  {
    hide Graph.ListsDistinct;
    var e := g.preds[b][k];
    var p := g.edges[e].src;
    assert e in g.succs[p] && g.succs[g.exit] == [] && g.preds[g.entry] == [];
    if p == g.entry {
      ReachesSelf(g, p);
    }
    ReachesStep(g, g.entry, e);
  }

  /** The walks for one join. */
  method WalkJoin(g: Graph, ghost dom: seq<set<nat>>, idom: seq<MaybeBlock>, df: array<set<nat>>, b: nat)
    requires g.Valid() && g.AllReachable() && DomExact(g, dom) && IdomExact(g, idom) && df.Length == g.blocks
    requires b < g.blocks && |g.preds[b]| >= 2 && forall x :: 0 <= x < g.blocks ==> b !in df[x]
    modifies df
    ensures forall x :: 0 <= x < g.blocks ==> old(df[x]) <= df[x] <= old(df[x]) + {b}
    ensures forall x: nat :: x < g.blocks ==> (b in df[x] <==> Live(g, x) && InFrontier(g, x, b))
  {
    hide Graph.ListsDistinct, Graph.AllReachable, DomExact, IdomExact, Upward, Segment, InFrontier, Live, RunnerOk;
    JoinFacts(g, idom, b);
    var top := idom[b].block;
    var k := 0;
    assert Upward(g, df[..], b, top) by { NothingUpward(g, df[..], b, top); }
    while k < |g.preds[b]|
      invariant 0 <= k <= |g.preds[b]| && WalkedFrom(g, df[..], old(df[..]), b, k, top)
    {
      var runner := g.edges[g.preds[b][k]].src;
      if runner != g.entry {
        JoinRunner(g, idom, b, k);
        WalkUp(g, dom, idom, df, b, runner, top);
      }
      k := k + 1;
    }
    forall x: nat | x < g.blocks ensures b in df[x] <==> Live(g, x) && InFrontier(g, x, b) {
      WalkedAll(g, df[..], old(df[..]), b, top, x);
    }
  }

  lemma NothingUpward(g: Graph, df: seq<set<nat>>, b: nat, top: nat)
    requires |df| == g.blocks && forall x :: 0 <= x < g.blocks ==> b !in df[x]
    ensures Upward(g, df, b, top)
  {
  }

  lemma JoinFacts(g: Graph, idom: seq<MaybeBlock>, b: nat)
    requires g.Valid() && g.AllReachable() && IdomExact(g, idom) && b < g.blocks && g.preds[b] != []
    ensures |idom| == g.blocks && Live(g, b) && idom[b].Block? && ImmediatelyDominates(g, idom[b].block, b)
  {
    hide Graph.ListsDistinct;
    PredLive(g, b, 0);
  }

  lemma JoinRunner(g: Graph, idom: seq<MaybeBlock>, b: nat, k: nat)
    requires g.Valid() && g.AllReachable() && IdomExact(g, idom) && b < g.blocks && k < |g.preds[b]|
    requires |idom| == g.blocks && idom[b].Block?
    ensures var p := g.edges[g.preds[b][k]].src; RunnerOk(g, p, p, idom[b].block)
  {
    hide Graph.ListsDistinct;
    PredLive(g, b, k);
    var p := g.edges[g.preds[b][k]].src;
    DominatesSelf(g, p);
    DominatesSources(g, idom[b].block, b, g.preds[b][k]);
    DominatorIsLive(g, idom[b].block, b);
  }

  /** compute_dominance_frontiers, on frontier sets that start empty. */
  method ComputeDominanceFrontiers(g: Graph, ghost dom: seq<set<nat>>, idom: seq<MaybeBlock>)
    returns (frontiers: seq<set<nat>>)
    requires g.Valid() && g.AllReachable() && DomExact(g, dom) && IdomExact(g, idom)
    ensures |frontiers| == g.blocks && forall x, b :: 0 <= x < g.blocks && b in frontiers[x] ==> b < g.blocks
    ensures forall x: nat, b: nat :: Live(g, x) && Live(g, b) ==> (b in frontiers[x] <==> InFrontier(g, x, b))
  {
    hide Graph.ListsDistinct, Graph.AllReachable, DomExact, IdomExact, InFrontier, Live;
    var df := new set<nat>[g.blocks](_ => {});
    var b := 0;
    while b < g.blocks
      invariant 0 <= b <= g.blocks
      invariant forall x: nat, c: nat :: x < g.blocks && c in df[x] ==> c < b
      invariant forall x: nat, c: nat :: x < g.blocks && c < b && Live(g, c) ==>
                  (c in df[x] <==> Live(g, x) && InFrontier(g, x, c))
    {
      if |g.preds[b]| >= 2 {
        WalkJoin(g, dom, idom, df, b);
      } else {
        forall x: nat | x < g.blocks && Live(g, b) ensures !InFrontier(g, x, b) {
          SinglePredNoFrontier(g, x, b);
        }
      }
      b := b + 1;
    }
    frontiers := df[..];
    forall x: nat, c: nat | Live(g, x) && Live(g, c) ensures x < g.blocks && c < g.blocks {
      LiveInRange(g, x);
      LiveInRange(g, c);
    }
  }

  lemma LiveInRange(g: Graph, b: nat)
    requires Live(g, b)
    ensures b < g.blocks
  {
  }

  /** Only live blocks hang in the tree. */
  ghost predicate Rooted(g: Graph, idom: seq<MaybeBlock>) {
    forall c :: 0 <= c < |idom| && idom[c].Block? ==> Live(g, c) && c != g.entry
  }

  /** The `adjvex` fields: one search per block. An exit block that nothing reaches
      has no predecessors to search. */
  method ComputeIdoms(g: Graph, dom: seq<set<nat>>) returns (idom: seq<MaybeBlock>)
    requires g.Valid() && g.AllReachable() && DomExact(g, dom)
    ensures IdomExact(g, idom) && Rooted(g, idom)
  {
    hide Graph.ListsDistinct, Graph.AllReachable, DomExact;
    idom := [];
    while |idom| < g.blocks
      invariant |idom| <= g.blocks
      invariant forall b: nat :: b < |idom| && Live(g, b) ==>
                  (idom[b].NoBlock? <==> b == g.entry) && (idom[b].Block? ==> ImmediatelyDominates(g, idom[b].block, b))
      invariant Rooted(g, idom)
    {
      var b := |idom|;
      var r := NoBlock;
      if b != g.exit || g.preds[b] != [] {
        LiveUnlessLost(g, b);
        r := GetImmediateDominator(g, dom, b);
      }
      idom := idom + [r];
    }
  }

  lemma LiveUnlessLost(g: Graph, b: nat)
    requires g.Valid() && g.AllReachable() && b < g.blocks && (b != g.exit || g.preds[b] != [])
    ensures Live(g, b)
  {
    if b == g.entry {
      ReachesSelf(g, b);
    } else if b == g.exit {
      PredLive(g, b, 0);
    }
  }
}
