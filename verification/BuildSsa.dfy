/** build_ssa of opt/ssa.c: the phases in order. */
module BuildSsa {
  import opened Cfg
  import opened Dfs
  import opened MustFlow
  import opened Lcm
  import opened Dominance
  import opened Frontier
  import opened Liveness
  import opened PhiPlacement
  import opened Renaming
  import opened Renamer
  import opened Rewrite
  import opened SsaCorrectness

  lemma {:induction false} KillsInRange(f: Func, b: nat, n: nat)
    requires f.Valid() && b < f.g.blocks && n <= |f.code[b]|
    ensures forall v :: v in Kills(f.code[b][..n], f.globals) ==> v < f.vars
    decreases n
  {
    hide Graph.Valid;
    if n > 0 {
      KillsInRange(f, b, n - 1);
      assert f.code[b][..n][..n - 1] == f.code[b][..n - 1];
      assert f.InstOk(f.code[b][n - 1]);
    }
  }

  lemma AllBlocksListed(g: Graph, rpo: seq<nat>)
    requires g.Valid() && g.AllReachable() && exists inner :: WithBoundary(g, rpo, inner) && ListsReachable(g, inner)
    ensures forall b: nat :: b < g.blocks <==> b in rpo
  {
    hide ListsReachable, Graph.ListsDistinct, Graph.AllReachable;
    var inner :| WithBoundary(g, rpo, inner) && ListsReachable(g, inner);
    OrderCoversBlocks(g, inner);
    assert rpo == [g.entry] + inner + [g.exit];
  }

  lemma EntryDepth(g: Graph, dom: seq<set<nat>>)
    requires g.Valid() && DomExact(g, dom)
    ensures Live(g, g.entry) && |dom| == g.blocks && |dom[g.entry]| <= g.blocks
  {
    hide Graph.ListsDistinct;
    ReachesSelf(g, g.entry);
    forall d | d in dom[g.entry] ensures d < g.blocks {
      EntryHasNoDominator(g, d);
    }
    CardinalityMonotone(dom[g.entry], Below(g.blocks));
  }

  lemma TreeStart(p: Placed, dom: seq<set<nat>>, idom: seq<MaybeBlock>, stacks: seq<seq<nat>>)
    requires TreeOk(p, dom, idom) && stacks == seq(p.f.vars, x => [0])
    ensures Stacked(p, stacks) && Distinct(p, map[], map[]) && Untouched(p, map[], p.f.g.entry)
    ensures Live(p.f.g, p.f.g.entry) && Tops(stacks) == EntryTops(p, dom, idom, map[], p.f.g.entry)
  {
    hide Graph.ListsDistinct;
    ReachesSelf(p.f.g, p.f.g.entry);
  }

  lemma TreeCovers(p: Placed, dom: seq<set<nat>>, idom: seq<MaybeBlock>, v: Versions)
    requires TreeOk(p, dom, idom) && SubtreeRenamed(p, dom, idom, v, p.f.g.entry)
    ensures forall b: nat :: Live(p.f.g, b) ==> BlockRenamed(p, dom, idom, v, b)
  {
    hide BlockRenamed, TreeOk;
    forall b: nat | Live(p.f.g, b) ensures BlockRenamed(p, dom, idom, v, b) {
      EntryDominates(p.f.g, b);
    }
  }

  /** Dominators, dominator tree, frontiers, liveness, phis: everything before renaming. */
  method PlacePhis(f: Func, base: seq<nat>)
    returns (p: Placed, idom: seq<MaybeBlock>, ghost dom: seq<set<nat>>, ghost df: seq<set<nat>>,
                                                     ghost live: seq<set<nat>>, ghost kills: seq<set<nat>>)
    requires f.Valid() && |base| == f.vars && f.g.AllReachable() && f.g.succs[f.g.entry] != []
    ensures p.f == f && p.base == base && Ready(p, dom, idom, df, live, kills) && Rooted(f.g, idom)
    ensures NoDoublePhi(p.phis) && PhiJustified(df, live, kills, p.phis)
  {
    hide DomExact, IdomExact, LivenessExact, PhiClosed, PhiJustified, NoDoublePhi, Graph.ListsDistinct, ListsReachable,
         EdgesForwardOrCyclic, DepthFirstLists, Rooted, Graph.AllReachable, WithBoundary, Live;
    var doms := ComputeDominators(f.g);
    idom := ComputeIdoms(f.g, doms);
    var frontiers := ComputeDominanceFrontiers(f.g, doms, idom);
    var pre, rpo := PreAndRevPostOrder(f.g, true, false);
    AllBlocksListed(f.g, rpo);
    var livein, liveout := ComputeLiveness(f, rpo);
    var written := ComputeKills(f);
    forall b, v | 0 <= b < |written| && v in written[b] ensures v < f.vars {
      KillsInRange(f, b, |f.code[b]|);
      assert f.code[b][..|f.code[b]|] == f.code[b];
    }
    LiveLength(f, livein);
    var phis := InsertPhis(frontiers, livein, written, f.vars);
    p := Placed(f, phis, base);
    dom, df, live, kills := doms, frontiers, livein, written;
    assert p.Valid() by {
      forall b, i | 0 <= b < |phis| && 0 <= i < |phis[b]| ensures phis[b][i] < f.vars {
        assert HasPhi(phis, b, phis[b][i]);
      }
    }
    assert FrontiersExact(f.g, df);
    assert PhisLive(live, phis);
  }

  lemma ReadyFacts(p: Placed, dom: seq<set<nat>>, idom: seq<MaybeBlock>, df: seq<set<nat>>, live: seq<set<nat>>,
                   kills: seq<set<nat>>)
    requires Ready(p, dom, idom, df, live, kills)
    ensures p.Valid() && p.f.g.Valid() && TreeOk(p, dom, idom) && DomExact(p.f.g, dom)
    ensures |idom| == |df| == p.f.g.blocks && p.f.g.entry < p.f.g.blocks
    ensures LivenessExact(p.f, live) && FrontiersExact(p.f.g, df) && KillsExact(p.f, kills)
  {
    hide Graph.ListsDistinct;
  }

  /** kills holds what the code of each block defines. */
  ghost predicate KillsExact(f: Func, kills: seq<set<nat>>) {
    |kills| == f.g.blocks <= |f.code| && forall b :: 0 <= b < f.g.blocks ==> kills[b] == Kills(f.code[b], f.globals)
  }

  lemma LiveLength(f: Func, live: seq<set<nat>>)
    requires f.Valid() && LivenessExact(f, live)
    ensures |live| == f.g.blocks
  {
  }

  /** SSA form: phis only where a live variable needs them, every operand bound to the
      last write on every path, and no version shared. */
  method Build(f: Func, base: seq<nat>) returns (p: Placed, versions: Versions)
    requires f.Valid() && |base| == f.vars && f.g.AllReachable() && f.g.succs[f.g.entry] != []
    ensures p.f == f && p.base == base && p.Valid() && NoDoublePhi(p.phis)
    ensures UsesCarryLastWrite(p, versions) && ArgsCarryLastWrite(p, versions) && OneWritePerVersion(p, versions)
    ensures exists df, live, kills ::
              && PhiJustified(df, live, kills, p.phis) && LivenessExact(f, live) && KillsExact(f, kills)
              && |df| == f.g.blocks && FrontiersExact(f.g, df)
  {
    hide *;
    var idom;
    ghost var dom, df, live, kills;
    p, idom, dom, df, live, kills := PlacePhis(f, base);
    ReadyFacts(p, dom, idom, df, live, kills);
    var st := new State(f.vars);
    EntryDepth(f.g, dom);
    TreeStart(p, dom, idom, st.stacks);
    RewriteBlock(p, dom, idom, st, f.g.entry);
    TreeCovers(p, dom, idom, st.versions);
    AllCarry(p, dom, idom, df, live, kills, st.versions);
    WritesApart(p, dom, idom, st.versions, st.counts);
    versions := st.versions;
  }
}
