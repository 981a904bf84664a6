/** Dominators, immediate dominators and dominance frontiers (opt/ssa.c). */
module Dominance {
  import opened Cfg
  import opened Dfs
  import opened MustFlow
  import opened Lcm

  // ---------- the meaning ----------

  /** Block d is the start of the walk or is entered by one of its edges. */
  ghost predicate Visits(g: Graph, u: nat, es: seq<nat>, d: nat) {
    if es == [] then d == u
    else (es[|es| - 1] < |g.edges| && g.edges[es[|es| - 1]].dest == d) || Visits(g, u, es[..|es| - 1], d)
  }

  /** d lies on every path from the entry to b. */
  ghost predicate Dominates(g: Graph, d: nat, b: nat) {
    forall es :: g.Walk(g.entry, es, b) ==> Visits(g, g.entry, es, d)
  }

  ghost predicate StrictlyDominates(g: Graph, d: nat, b: nat) {
    d != b && Dominates(g, d, b)
  }

  /** The strict dominator that every other strict dominator dominates. */
  ghost predicate ImmediatelyDominates(g: Graph, d: nat, b: nat) {
    StrictlyDominates(g, d, b) && forall c: nat :: StrictlyDominates(g, c, b) ==> Dominates(g, c, d)
  }

  /** x dominates a predecessor of b but does not strictly dominate b. */
  ghost predicate InFrontier(g: Graph, x: nat, b: nat)
    requires g.Valid() && b < g.blocks
  {
    && !StrictlyDominates(g, x, b)
    && exists k :: 0 <= k < |g.preds[b]| && Dominates(g, x, g.edges[g.preds[b][k]].src)
  }

  ghost predicate Live(g: Graph, b: nat) {
    b < g.blocks && g.Reaches(g.entry, b)
  }

  lemma {:induction false} VisitsEnds(g: Graph, u: nat, es: seq<nat>, v: nat)
    requires g.Walk(u, es, v)
    ensures Visits(g, u, es, u) && Visits(g, u, es, v)
    decreases |es|
  {
    if es != [] {
      VisitsEnds(g, u, es[..|es| - 1], g.edges[es[|es| - 1]].src);
    }
  }

  lemma {:induction false} VisitsConcat(g: Graph, u: nat, es: seq<nat>, v: nat, fs: seq<nat>, w: nat, d: nat)
    requires g.Walk(u, es, v) && g.Walk(v, fs, w)
    ensures Visits(g, u, es + fs, d) <==> Visits(g, u, es, d) || Visits(g, v, fs, d)
    decreases |fs|
  {
    if fs == [] {
      assert es + fs == es;
      VisitsEnds(g, u, es, v);
    } else {
      var n := |fs| - 1;
      VisitsConcat(g, u, es, v, fs[..n], g.edges[fs[n]].src, d);
      assert (es + fs)[..|es + fs| - 1] == es + fs[..n];
    }
  }

  /** A walk that visits d has a prefix that ends in d. */
  lemma {:induction false} PrefixTo(g: Graph, u: nat, es: seq<nat>, v: nat, d: nat) returns (i: nat)
    requires g.Walk(u, es, v) && Visits(g, u, es, d)
    ensures i <= |es| && g.Walk(u, es[..i], d) && g.Walk(d, es[i..], v)
    ensures forall c :: Visits(g, u, es[..i], c) ==> Visits(g, u, es, c)
    decreases |es|
  {
    if es == [] {
      i := 0;
    } else if g.edges[es[|es| - 1]].dest == d {
      i := |es|;
      assert es[..i] == es;
      assert es[i..] == [];
    } else {
      var n := |es| - 1;
      i := PrefixTo(g, u, es[..n], g.edges[es[n]].src, d);
      assert es[..n][..i] == es[..i];
      assert es[i..] == es[..n][i..] + [es[n]];
      WalkStep(g, d, es[..n][i..], es[n]);
    }
  }

  lemma DominatesSelf(g: Graph, b: nat)
    ensures Dominates(g, b, b)
  {
    forall es | g.Walk(g.entry, es, b) ensures Visits(g, g.entry, es, b) {
      VisitsEnds(g, g.entry, es, b);
    }
  }

  lemma DominatesTrans(g: Graph, c: nat, d: nat, b: nat)
    requires Dominates(g, c, d) && Dominates(g, d, b)
    ensures Dominates(g, c, b)
  {
    forall es | g.Walk(g.entry, es, b) ensures Visits(g, g.entry, es, c) {
      var i := PrefixTo(g, g.entry, es, b, d);
    }
  }

  /** Two blocks that dominate each other are the same block. */
  lemma {:induction false} DominatesAntisym(g: Graph, c: nat, d: nat, es: seq<nat>)
    requires Dominates(g, c, d) && Dominates(g, d, c) && g.Walk(g.entry, es, c)
    ensures c == d
    decreases |es|
  {
    var i := PrefixTo(g, g.entry, es, c, d);
    if i == |es| {
      assert es[..i] == es;
      SameEnd(g, g.entry, es, c, d);
    } else {
      var j := PrefixTo(g, g.entry, es[..i], d, c);
      assert es[..i][..j] == es[..j];
      DominatesAntisym(g, c, d, es[..j]);
    }
  }

  lemma SameEnd(g: Graph, u: nat, es: seq<nat>, v: nat, w: nat)
    requires g.Walk(u, es, v) && g.Walk(u, es, w)
    ensures v == w
  {
  }

  /** What dominates the source of an edge, or is its target, is all that can
      dominate the target; and a dominator of b other than b dominates every source. */
  lemma DominatesSources(g: Graph, d: nat, b: nat, e: nat)
    requires g.Valid() && StrictlyDominates(g, d, b) && e < |g.edges| && g.edges[e].dest == b
    ensures Dominates(g, d, g.edges[e].src)
  {
    forall es | g.Walk(g.entry, es, g.edges[e].src) ensures Visits(g, g.entry, es, d) {
      WalkStep(g, g.entry, es, e);
      assert (es + [e])[..|es|] == es;
      assert Visits(g, g.entry, es + [e], d);
    }
  }

  lemma EntryHasNoDominator(g: Graph, d: nat)
    requires g.Valid() && Dominates(g, d, g.entry)
    ensures d == g.entry
  {
    assert g.Walk(g.entry, [], g.entry);
    assert Visits(g, g.entry, [], d);
  }

  lemma EntryDominates(g: Graph, b: nat)
    ensures Dominates(g, g.entry, b)
  {
    forall es | g.Walk(g.entry, es, b) ensures Visits(g, g.entry, es, g.entry) {
      VisitsEnds(g, g.entry, es, b);
    }
  }

  // ---------- the iterative computation ----------

  /** Dominator sets as a "must" problem: a block has itself and what all its
      predecessors have; the entry has only itself. A block without predecessors
      other than the entry (an exit that no path reaches) is not part of it. */
  ghost function DomProblem(g: Graph): Problem
    requires g.Valid()
  {
    var all := Below(g.blocks);
    Problem(all, set b | b in all && (b == g.entry || g.preds[b] != []),
            seq(g.blocks, b requires 0 <= b < g.blocks => PredBlocks(g, b)),
            seq(g.blocks, b requires 0 <= b < g.blocks => b == g.entry),
            seq(g.blocks, b requires 0 <= b < g.blocks => {b}),
            seq(g.blocks, b requires 0 <= b < g.blocks => all))
  }

  lemma DomValid(g: Graph)
    requires g.Valid() && g.AllReachable()
    ensures DomProblem(g).Valid() && |DomProblem(g).srcs| == g.blocks
    ensures forall b: nat :: b in DomProblem(g).active <==> b < g.blocks && (b == g.entry || g.preds[b] != [])
    ensures forall b: nat :: g.Normal(b) ==> b in DomProblem(g).active
  {
    hide Graph.ListsDistinct;
    var p := DomProblem(g);
    assert g.succs[g.exit] == [];
    forall b: nat | g.Normal(b) ensures g.preds[b] != [] {
      var es :| g.Walk(g.entry, es, b);
      LastEdge(g, g.entry, es, b);
    }
    forall n, k | n in p.active && !p.boundary[n] && 0 <= k < |p.srcs[n]| ensures p.srcs[n][k] in p.active {
      var src := g.edges[g.preds[n][k]].src;
      assert g.preds[n][k] in g.succs[src];
      assert src == g.entry || g.Normal(src);
    }
  }

  /** A chain that refutes "d dominates b" is a path from the entry to b, read
      backwards, that avoids d. */
  lemma {:induction false} ChainAvoids(g: Graph, chain: seq<nat>, d: nat) returns (es: seq<nat>)
    requires g.Valid() && DomProblem(g).Valid() && DomProblem(g).Refutes(chain, d) && d < g.blocks
    ensures g.Walk(g.entry, es, chain[0]) && !Visits(g, g.entry, es, d)
    decreases |chain|
  {
    hide Graph.ListsDistinct;
    var p := DomProblem(g);
    if |chain| == 1 {
      es := [];
    } else {
      var fs := ChainAvoids(g, chain[1..], d);
      var k :| 0 <= k < |g.preds[chain[0]]| && g.edges[g.preds[chain[0]][k]].src == chain[1];
      var e := g.preds[chain[0]][k];
      WalkStep(g, g.entry, fs, e);
      es := fs + [e];
      assert es[..|es| - 1] == fs;
    }
  }

  lemma {:induction false} AvoidingChain(g: Graph, es: seq<nat>, b: nat, d: nat) returns (chain: seq<nat>)
    requires g.Valid() && DomProblem(g).Valid() && d < g.blocks
    requires g.Walk(g.entry, es, b) && !Visits(g, g.entry, es, d)
    ensures DomProblem(g).Refutes(chain, d) && chain[0] == b
    decreases |es|
  {
    hide Graph.ListsDistinct;
    var p := DomProblem(g);
    if es == [] {
      chain := [b];
    } else {
      var e := es[|es| - 1];
      var rest := AvoidingChain(g, es[..|es| - 1], g.edges[e].src, d);
      chain := [b] + rest;
      assert chain[1..] == rest;
      assert e in g.preds[b] && b != g.entry;
      var k :| 0 <= k < |g.preds[b]| && g.preds[b][k] == e;
      assert p.srcs[b][k] == g.edges[e].src;
    }
  }

  lemma RefutedMeansAvoided(g: Graph, b: nat, d: nat)
    requires g.Valid() && DomProblem(g).Valid() && d < g.blocks
    ensures DomProblem(g).Refuted(b, d) <==> !Dominates(g, d, b)
  {
    if DomProblem(g).Refuted(b, d) {
      var chain :| DomProblem(g).Refutes(chain, d) && chain[0] == b;
      var es := ChainAvoids(g, chain, d);
    }
    if !Dominates(g, d, b) {
      var es :| g.Walk(g.entry, es, b) && !Visits(g, g.entry, es, d);
      var chain := AvoidingChain(g, es, b, d);
    }
  }

  /** The sets are exactly the dominators. */
  ghost predicate DomExact(g: Graph, dom: seq<set<nat>>) {
    |dom| == g.blocks && forall b: nat, d: nat :: Live(g, b) ==> (d in dom[b] <==> Dominates(g, d, b))
  }

  lemma GreatestIsExact(g: Graph, dom: seq<set<nat>>)
    requires g.Valid() && g.AllReachable() && |dom| == g.blocks
    requires DomProblem(g).Valid() && DomProblem(g).Greatest(dom)
    requires forall b :: b in DomProblem(g).active ==> dom[b] <= Below(g.blocks)
    ensures DomExact(g, dom)
  {
    hide Graph.ListsDistinct;
    DomValid(g);
    forall b: nat, d: nat | Live(g, b) ensures d in dom[b] <==> Dominates(g, d, b) {
      var es :| g.Walk(g.entry, es, b);
      if es != [] {
        LastEdge(g, g.entry, es, b);
      }
      assert b in DomProblem(g).active;
      if d < g.blocks {
        RefutedMeansAvoided(g, b, d);
      } else if Dominates(g, d, b) {
        VisitsBlocks(g, g.entry, es, b, d);
      }
    }
  }

  lemma {:induction false} VisitsBlocks(g: Graph, u: nat, es: seq<nat>, v: nat, d: nat)
    requires g.Valid() && u < g.blocks && g.Walk(u, es, v) && Visits(g, u, es, d)
    ensures d < g.blocks
    decreases |es|
  {
    if es != [] && g.edges[es[|es| - 1]].dest != d {
      VisitsBlocks(g, u, es[..|es| - 1], g.edges[es[|es| - 1]].src, d);
    }
  }

  /** The intersection over the predecessors; without predecessors the work set
      keeps whatever the previous block left in it. */
  method MeetOfPreds(g: Graph, dom: array<set<nat>>, b: nat, work: set<nat>) returns (r: set<nat>)
    requires g.Valid() && b < g.blocks && dom.Length == g.blocks
    ensures g.preds[b] == [] ==> r == work
    ensures g.preds[b] != [] ==> forall x :: x in r <==>
              forall k :: 0 <= k < |g.preds[b]| ==> x in dom[g.edges[g.preds[b][k]].src]
  {
    hide Graph.ListsDistinct;
    r := work;
    var first := true;
    var k := 0;
    while k < |g.preds[b]|
      invariant 0 <= k <= |g.preds[b]| && first == (k == 0)
      invariant k == 0 ==> r == work
      invariant k > 0 ==> forall x :: x in r <==> forall j :: 0 <= j < k ==> x in dom[g.edges[g.preds[b][j]].src]
    {
      var src := g.edges[g.preds[b][k]].src;
      if first {
        r := dom[src];
        first := false;
      } else {
        r := r * dom[src];
      }
      k := k + 1;
    }
  }

  lemma DomShape(g: Graph, b: nat)
    requires g.Valid() && b < g.blocks
    ensures var p := DomProblem(g);
            && |p.srcs| == |p.boundary| == |p.gen| == |p.pass| == g.blocks && p.ones == Below(g.blocks)
            && |p.srcs[b]| == |g.preds[b]| && (p.boundary[b] <==> b == g.entry) && p.gen[b] == {b}
            && p.pass[b] == Below(g.blocks)
            && forall k :: 0 <= k < |g.preds[b]| ==> p.srcs[b][k] == g.edges[g.preds[b][k]].src
  {
    hide Graph.ListsDistinct;
  }

  lemma MeetIsTransfer(g: Graph, dom: seq<set<nat>>, b: nat, r: set<nat>)
    requires g.Valid() && DomProblem(g).Valid() && |DomProblem(g).srcs| == g.blocks
    requires b != g.entry && b < g.blocks && b in DomProblem(g).active && g.preds[b] != []
    requires |dom| == g.blocks && forall c :: c in DomProblem(g).active ==> dom[c] <= Below(g.blocks)
    requires forall x :: x in r <==> forall k :: 0 <= k < |g.preds[b]| ==> x in dom[g.edges[g.preds[b][k]].src]
    ensures DomProblem(g).Transfer(dom, b) == r + {b}
  {
    DomShape(g, b);
    hide Graph.ListsDistinct, DomProblem;
    var p := DomProblem(g);
    assert p.srcs[b][0] in p.active;
    forall x | x in r ensures x in p.Meet(dom, b) {
      assert x in dom[g.edges[g.preds[b][0]].src];
    }
  }

  /** True when no edge enters the exit block (an endless loop). */
  predicate ExitLost(g: Graph)
    requires g.Valid()
  {
    g.preds[g.exit] == []
  }

  /** The vectors that matter: the set of a lost exit block is left out. */
  function Masked(g: Graph, dom: seq<set<nat>>): seq<set<nat>>
    requires g.Valid() && |dom| == g.blocks
  {
    if ExitLost(g) then dom[g.exit := {}] else dom
  }

  /** A lost exit block copies the set of the block visited just before it. */
  predicate Stale(g: Graph, rpo: seq<nat>, dom: seq<set<nat>>)
    requires g.Valid() && |dom| == g.blocks && forall k :: 0 <= k < |rpo| ==> rpo[k] < g.blocks
  {
    ExitLost(g) && |rpo| > 2 && dom[g.exit] != dom[rpo[|rpo| - 2]] + {g.exit}
  }

  ghost predicate Listing(g: Graph, rpo: seq<nat>)
    requires g.Valid()
  {
    && |rpo| >= 2 && rpo[0] == g.entry && rpo[|rpo| - 1] == g.exit
    && (forall k :: 0 <= k < |rpo| ==> rpo[k] < g.blocks)
    && (forall k :: 0 < k < |rpo| - 1 ==> g.Normal(rpo[k]))
    && (forall b: nat :: b < g.blocks ==> b in rpo)
    && (ExitLost(g) ==> |rpo| > 2)
  }

  ghost function Unvisited(g: Graph, rpo: seq<nat>, i: nat): set<nat>
    requires g.Valid() && i <= |rpo|
  {
    set b | b in DomProblem(g).active && b !in rpo[..i]
  }

  /** One visit of a block in a round of the iteration. */
  lemma VisitKeeps(g: Graph, rpo: seq<nat>, i: nat, dom: seq<set<nat>>, changed: bool, dom': seq<set<nat>>)
    requires g.Valid() && g.AllReachable() && Listing(g, rpo) && 0 < i < |rpo| && |dom| == |dom'| == g.blocks
    requires DomProblem(g).Inv(dom, if changed then DomProblem(g).active else Unvisited(g, rpo, i))
    requires var b := rpo[i]; if b == g.exit && ExitLost(g) then dom' == dom[b := dom'[b]]
             else b in DomProblem(g).active && dom' == dom[b := DomProblem(g).Transfer(dom, b)]
    ensures DomProblem(g).Inv(dom', if changed || dom' != dom then DomProblem(g).active else Unvisited(g, rpo, i + 1))
    ensures MustFlow.Size(Masked(g, dom')) <= MustFlow.Size(Masked(g, dom))
    ensures Masked(g, dom') != Masked(g, dom) ==> MustFlow.Size(Masked(g, dom')) < MustFlow.Size(Masked(g, dom))
  {
    hide Graph.ListsDistinct, Listing, DomProblem, Graph.AllReachable, Problem.Inv, Problem.Valid;
    var p := DomProblem(g);
    var b := rpo[i];
    DomValid(g);
    var pending := if changed then p.active else Unvisited(g, rpo, i);
    var pending' := if changed || dom' != dom then p.active else Unvisited(g, rpo, i + 1);
    assert rpo[..i + 1] == rpo[..i] + [b];
    if b == g.exit && ExitLost(g) {
      assert b !in p.active by { assert b != g.entry; }
      LostExit(g, p, dom, pending, dom', pending');
    } else {
      p.Step(dom, pending, {b}, dom', pending');
      assert forall k :: 0 <= k < |dom| ==> Masked(g, dom')[k] <= Masked(g, dom)[k];
    }
    SizeShrinks(Masked(g, dom), Masked(g, dom'));
  }

  lemma LostExit(g: Graph, p: Problem, dom: seq<set<nat>>, pending: set<nat>, dom': seq<set<nat>>, pending': set<nat>)
    requires g.Valid() && p.Valid() && p.Inv(dom, pending) && |dom'| == |dom|
    requires forall b :: b in p.active ==> dom'[b] == dom[b]
    requires pending * p.active <= pending'
    ensures p.Inv(dom', pending')
  {
    forall n | n in p.active ensures p.Transfer(dom', n) == p.Transfer(dom, n) {
      p.TransferSame(dom, dom', n);
    }
  }

  /** What holds when the blocks before position i of the list have been visited in this round. */
  ghost predicate RoundInv(g: Graph, rpo: seq<nat>, i: nat, start: seq<set<nat>>, dom: seq<set<nat>>, changed: bool,
                           work: set<nat>)
    requires g.Valid() && Listing(g, rpo) && 1 <= i <= |rpo| && |start| == |dom| == g.blocks
  {
    && DomProblem(g).Inv(dom, if changed then DomProblem(g).active else Unvisited(g, rpo, i))
    && dom[g.entry] == {g.entry}
    && (!changed ==> dom == start)
    && MustFlow.Size(Masked(g, dom)) <= MustFlow.Size(Masked(g, start))
    && (Masked(g, dom) != Masked(g, start) ==> MustFlow.Size(Masked(g, dom)) < MustFlow.Size(Masked(g, start)))
    && (i < |rpo| ==> dom[g.exit] == start[g.exit])
    && (1 < i < |rpo| ==> work == dom[rpo[i - 1]])
    && (i == |rpo| ==> !Stale(g, rpo, dom))
    && (changed ==> Masked(g, dom) != Masked(g, start) || (i == |rpo| && Stale(g, rpo, start)))
  }

  lemma RoundStart(g: Graph, rpo: seq<nat>, dom: seq<set<nat>>, work: set<nat>)
    requires g.Valid() && g.AllReachable() && Listing(g, rpo) && |dom| == g.blocks
    requires DomProblem(g).Inv(dom, DomProblem(g).active) && dom[g.entry] == {g.entry}
    ensures RoundInv(g, rpo, 1, dom, dom, false, work)
  {
    DomValid(g);
    DomShape(g, g.entry);
    var p := DomProblem(g);
    hide Graph.ListsDistinct, DomProblem, Listing, Problem.Keeps, MustFlow.Size, Masked;
    assert p.Transfer(dom, g.entry) == {g.entry};
    assert rpo[..1] == [rpo[0]] && rpo[0] == g.entry by { ListingFacts(g, rpo); }
    assert forall n :: n in p.active && n !in Unvisited(g, rpo, 1) ==> n == g.entry;
  }

  lemma ListingFacts(g: Graph, rpo: seq<nat>)
    requires g.Valid() && Listing(g, rpo)
    ensures |rpo| >= 2 && rpo[0] == g.entry && rpo[|rpo| - 1] == g.exit
    ensures forall k :: 0 <= k < |rpo| ==> rpo[k] < g.blocks
    ensures forall k :: 0 < k < |rpo| ==> rpo[k] != g.entry
    ensures forall k :: 0 < k < |rpo| - 1 ==> g.Normal(rpo[k])
  {
  }

  /** A visit that recomputes an active block. */
  lemma RoundStepActive(g: Graph, rpo: seq<nat>, i: nat, start: seq<set<nat>>, dom: seq<set<nat>>, changed: bool,
                        work: set<nat>, 
                        work': set<nat>)
    requires g.Valid() && g.AllReachable() && Listing(g, rpo) && 1 <= i < |rpo| && |start| == |dom| == g.blocks
    requires RoundInv(g, rpo, i, start, dom, changed, work)
    requires rpo[i] in DomProblem(g).active && work' == DomProblem(g).Transfer(dom, rpo[i])
    ensures RoundInv(g, rpo, i + 1, start, dom[rpo[i] := work'], changed || work' != dom[rpo[i]], work')
  {
    hide Graph.ListsDistinct, DomProblem, Listing, Graph.AllReachable, Problem.Inv, Problem.Valid, Problem.Transfer,
         MustFlow.Size;
    ListingFacts(g, rpo);
    var dom' := dom[rpo[i] := work'];
    VisitKeeps(g, rpo, i, dom, changed, dom');
    ActiveUnlessLost(g, rpo[i]);
    if work' != dom[rpo[i]] {
      assert Masked(g, dom')[rpo[i]] == work';
      assert Masked(g, dom') != Masked(g, dom);
    } else {
      assert dom' == dom;
    }
  }

  lemma ActiveUnlessLost(g: Graph, b: nat)
    requires g.Valid() && b in DomProblem(g).active
    ensures b < g.blocks && (b == g.exit ==> !ExitLost(g))
  {
  }

  /** A visit to a lost exit block. */
  lemma RoundStepLost(g: Graph, rpo: seq<nat>, i: nat, start: seq<set<nat>>, dom: seq<set<nat>>, changed: bool,
                      work: set<nat>)
    requires g.Valid() && g.AllReachable() && Listing(g, rpo) && 1 <= i < |rpo| && |start| == |dom| == g.blocks
    requires RoundInv(g, rpo, i, start, dom, changed, work)
    requires rpo[i] == g.exit && ExitLost(g)
    ensures RoundInv(g, rpo, i + 1, start, dom[g.exit := work + {g.exit}], changed
              || work + {g.exit} != dom[g.exit], work + {g.exit})
  {
    hide Graph.ListsDistinct, DomProblem, Graph.AllReachable, Problem.Inv, Problem.Valid, Problem.Transfer,
         MustFlow.Size;
    assert i == |rpo| - 1 && i > 1;
    var dom' := dom[g.exit := work + {g.exit}];
    VisitKeeps(g, rpo, i, dom, changed, dom');
    assert Masked(g, dom') == Masked(g, dom);
    assert rpo[i - 1] != g.exit;
    if dom' == dom {
    } else {
      assert !changed ==> dom == start;
      assert changed ==> Masked(g, dom) != Masked(g, start);
    }
  }

  /** One round over the blocks in reverse post-order. */
  method DomRound(g: Graph, rpo: seq<nat>, dom: array<set<nat>>, work0: set<nat>)
    returns (changed: bool, work: set<nat>)
    requires g.Valid() && g.AllReachable() && Listing(g, rpo) && dom.Length == g.blocks
    requires DomProblem(g).Inv(dom[..], DomProblem(g).active) && dom[g.entry] == {g.entry}
    modifies dom
    ensures RoundInv(g, rpo, |rpo|, old(dom[..]), dom[..], changed, work)
  {
    hide Graph.ListsDistinct, Listing, DomProblem, Graph.AllReachable, Problem.Inv, Problem.Valid, Problem.Transfer,
         RoundInv;
    changed, work := false, work0;
    var i := 1;
    ListingFacts(g, rpo);
    RoundStart(g, rpo, dom[..], work);
    while i < |rpo|
      invariant 1 <= i <= |rpo|
      invariant RoundInv(g, rpo, i, old(dom[..]), dom[..], changed, work)
    {
      var b := rpo[i];
      ghost var before, was, work1 := dom[..], changed, work;
      work := MeetOfPreds(g, dom, b, work);
      VisitValue(g, rpo, i, old(dom[..]), before, changed, work1, work);
      work := work + {b};
      if work != dom[b] {
        dom[b] := work;
        changed := true;
      }
      assert dom[..] == before[b := work];
      if b == g.exit && ExitLost(g) {
        RoundStepLost(g, rpo, i, old(dom[..]), before, was, work1);
      } else {
        RoundStepActive(g, rpo, i, old(dom[..]), before, was, work1, work);
      }
      i := i + 1;
    }
  }

  lemma VisitValue(g: Graph, rpo: seq<nat>, i: nat, start: seq<set<nat>>, dom: seq<set<nat>>, changed: bool,
                   work: set<nat>, work': set<nat>)
    requires g.Valid() && g.AllReachable() && Listing(g, rpo) && 1 <= i < |rpo| && |start| == |dom| == g.blocks
    requires RoundInv(g, rpo, i, start, dom, changed, work)
    requires var b := rpo[i]; |g.preds| == g.blocks && (g.preds[b] == [] ==> work' == work)
    requires var b := rpo[i]; g.preds[b] != [] ==> forall x :: x in work' <==>
               forall k :: 0 <= k < |g.preds[b]| ==> x in dom[g.edges[g.preds[b][k]].src]
    ensures var b := rpo[i];
            if b == g.exit && ExitLost(g) then work' == work
            else b in DomProblem(g).active && work' + {b} == DomProblem(g).Transfer(dom, b)
  {
    hide Graph.ListsDistinct, Listing, RoundInv;
    ListingFacts(g, rpo);
    DomValid(g);
    var b := rpo[i];
    if !(b == g.exit && ExitLost(g)) {
      assert b in DomProblem(g).active;
      RoundBounds(g, rpo, i, start, dom, changed, work);
      MeetIsTransfer(g, dom, b, work');
    }
  }

  lemma RoundBounds(g: Graph, rpo: seq<nat>, i: nat, start: seq<set<nat>>, dom: seq<set<nat>>, changed: bool,
                    work: set<nat>)
    requires g.Valid() && Listing(g, rpo) && 1 <= i <= |rpo| && |start| == |dom| == g.blocks
    requires RoundInv(g, rpo, i, start, dom, changed, work)
    ensures forall c :: c in DomProblem(g).active ==> dom[c] <= Below(g.blocks)
  {
  }

  /** compute_dominators: start from the full sets, go round until a round changes nothing. */
  method ComputeDominators(g: Graph) returns (doms: seq<set<nat>>)
    requires g.Valid() && g.AllReachable() && g.succs[g.entry] != []
    ensures DomExact(g, doms)
  {
    hide Graph.ListsDistinct, Graph.AllReachable, DomProblem, Problem.Inv, Problem.Valid, RoundInv, DomExact;
    hide MustFlow.Size, Masked, Stale, Listing, DepthFirstLists;
    var pre, rpo := PreAndRevPostOrder(g, true, false);
    ListingFromOrder(g, rpo);
    ListingFacts(g, rpo);
    var dom := InitDominators(g, rpo);
    DomStart(g, rpo, dom[..]);
    var changed := true;
    var work: set<nat> := {};
    while changed
      invariant Listing(g, rpo) && dom[g.entry] == {g.entry}
      invariant DomProblem(g).Inv(dom[..], if changed then DomProblem(g).active else {})
      decreases MustFlow.Size(Masked(g, dom[..])), if Stale(g, rpo, dom[..]) then 1 else 0, if changed then 1 else 0
    {
      ghost var before := dom[..];
      changed, work := DomRound(g, rpo, dom, work);
      RoundDone(g, rpo, before, dom[..], changed, work);
    }
    doms := dom[..];
    DomDone(g, doms);
  }

  lemma RoundDone(g: Graph, rpo: seq<nat>, start: seq<set<nat>>, dom: seq<set<nat>>, changed: bool, work: set<nat>)
    requires g.Valid() && Listing(g, rpo) && |start| == |dom| == g.blocks
    requires RoundInv(g, rpo, |rpo|, start, dom, changed, work)
    ensures dom[g.entry] == {g.entry}
    ensures DomProblem(g).Inv(dom, if changed then DomProblem(g).active else {})
    ensures !changed || MustFlow.Size(Masked(g, dom)) < MustFlow.Size(Masked(g, start)) ||
            (MustFlow.Size(Masked(g, dom)) == MustFlow.Size(Masked(g, start)) && Stale(g, rpo, start)
              && !Stale(g, rpo, dom))
    ensures !changed ==> dom == start
  {
    hide Graph.ListsDistinct, Problem.Inv, MustFlow.Size;
    assert rpo[..|rpo|] == rpo;
    assert Unvisited(g, rpo, |rpo|) == {};
  }

  lemma DomDone(g: Graph, dom: seq<set<nat>>)
    requires g.Valid() && g.AllReachable() && |dom| == g.blocks && DomProblem(g).Inv(dom, {})
    ensures DomExact(g, dom)
  {
    DomProblem(g).Done(dom);
    GreatestIsExact(g, dom);
  }

  /** The entry has itself, every other block of the list has all of them. */
  method InitDominators(g: Graph, rpo: seq<nat>) returns (dom: array<set<nat>>)
    requires g.Valid() && Listing(g, rpo)
    ensures fresh(dom) && dom.Length == g.blocks
    ensures forall b :: 0 <= b < g.blocks ==> dom[b] == if b == g.entry then {g.entry} else set c | c in rpo
  {
    hide Graph.ListsDistinct;
    dom := new set<nat>[g.blocks](_ => {});
    dom[g.entry] := {g.entry};
    var i := 1;
    while i < |rpo|
      invariant 1 <= i <= |rpo|
      invariant forall b :: 0 <= b < g.blocks && b in rpo[..i] ==>
                  dom[b] == if b == g.entry then {g.entry} else set c | c in rpo
    {
      var all: set<nat> := {};
      var j := 0;
      while j < |rpo|
        invariant 0 <= j <= |rpo| && all == set c | c in rpo[..j]
      {
        all := all + {rpo[j]};
        assert rpo[..j + 1] == rpo[..j] + [rpo[j]];
        j := j + 1;
      }
      assert rpo[..j] == rpo;
      ListingFacts(g, rpo);
      dom[rpo[i]] := all;
      assert rpo[..i + 1] == rpo[..i] + [rpo[i]];
      i := i + 1;
    }
    assert rpo[..i] == rpo;
  }

  lemma DomStart(g: Graph, rpo: seq<nat>, dom: seq<set<nat>>)
    requires g.Valid() && g.AllReachable() && Listing(g, rpo) && |dom| == g.blocks
    requires forall b :: 0 <= b < g.blocks ==> dom[b] == if b == g.entry then {g.entry} else set c | c in rpo
    ensures DomProblem(g).Inv(dom, DomProblem(g).active)
  {
    hide Graph.ListsDistinct;
    DomValid(g);
    var all := set c | c in rpo;
    assert forall c | c in rpo :: c < g.blocks;
    assert all == Below(g.blocks);
    DomProblem(g).Start(dom, DomProblem(g).active);
  }

  lemma ListingFromOrder(g: Graph, rpo: seq<nat>)
    requires g.Valid() && g.AllReachable() && g.succs[g.entry] != []
    requires exists inner :: WithBoundary(g, rpo, inner) && ListsReachable(g, inner)
    ensures Listing(g, rpo)
  {
    hide Graph.ListsDistinct;
    var inner :| WithBoundary(g, rpo, inner) && ListsReachable(g, inner);
    forall k | 0 < k < |rpo| - 1 ensures g.Normal(rpo[k]) {
      assert inner[k - 1] in inner;
    }
    var e := g.succs[g.entry][0];
    var d := g.edges[e].dest;
    if ExitLost(g) {
      assert d != g.exit && d != g.entry;
      ReachesStep(g, g.entry, e) by { ReachesSelf(g, g.entry); }
      assert d in inner;
    }
  }
}
