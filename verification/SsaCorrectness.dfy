/** What the renamed function means: along every path from the entry, an operand
    carries the version that the last executed definition (or phi) of its variable
    was given. */
module SsaCorrectness {
  import opened Cfg
  import opened Dfs
  import opened MustFlow
  import opened Dominance
  import opened Frontier
  import opened Liveness
  import opened PhiPlacement
  import opened Renaming
  import opened Renamer
  import opened Rewrite

  // ---------- executing a path ----------

  /** Where a variable was last written; `Start` before any write. */
  datatype Place = Start | At(slot: Slot)

  function VersionOf(v: Versions, place: Place): nat {
    if place.Start? then 0 else Get(v, place.slot)
  }

  function DefPlaces(b: nat, i: nat, n: nat): (r: seq<Place>)
    ensures |r| == n
  {
    seq(n, k requires 0 <= k < n => At(Def(b, i, k)))
  }

  function ImplicitPlaces(b: nat, i: nat, n: nat): (r: seq<Place>)
    ensures |r| == n
  {
    seq(n, k requires 0 <= k < n => At(Implicit(b, i, k)))
  }

  /** The last write of each variable after one instruction has been executed. */
  function Execute(p: Placed, b: nat, i: nat, last: seq<Place>): (r: seq<Place>)
    requires p.Valid() && b < p.f.g.blocks && i < |p.Body(b)| && |last| == p.f.vars
    ensures |r| == p.f.vars
  {
    BodyOk(p, b, i);
    var inst := p.Body(b)[i];
    var t := Assign(last, inst.defs, DefPlaces(b, i, |inst.defs|));
    if inst.call then Assign(t, p.f.globals, ImplicitPlaces(b, i, |p.f.globals|)) else t
  }

  /** ... and before instruction i of block b, when the block is entered with `last`. */
  function ExecuteTo(p: Placed, b: nat, last: seq<Place>, i: nat): (r: seq<Place>)
    requires p.Valid() && b < p.f.g.blocks && i <= |p.Body(b)| && |last| == p.f.vars
    ensures |r| == p.f.vars
    decreases i
  {
    if i == 0 then last else Execute(p, b, i - 1, ExecuteTo(p, b, last, i - 1))
  }

  /** The last write of each variable when the path es arrives at block b. */
  ghost function Arrive(p: Placed, es: seq<nat>, b: nat): (r: seq<Place>)
    requires p.Valid() && b < p.f.g.blocks && p.f.g.Walk(p.f.g.entry, es, b)
    ensures |r| == p.f.vars
    decreases |es|
  {
    if es == [] then seq(p.f.vars, k => Start)
    else
      var n := |es| - 1;
      var src := p.f.g.edges[es[n]].src;
      SourceInRange(p.f.g, es[n]);
      ExecuteTo(p, src, Arrive(p, es[..n], src), |p.Body(src)|)
  }

  /** The last write of variable x when the path es has come to instruction i of b. */
  ghost function Reaching(p: Placed, es: seq<nat>, b: nat, i: nat, x: nat): Place
    requires p.Valid() && b < p.f.g.blocks && i <= |p.Body(b)| && x < p.f.vars && p.f.g.Walk(p.f.g.entry, es, b)
  {
    ExecuteTo(p, b, Arrive(p, es, b), i)[x]
  }

  lemma SourceInRange(g: Graph, e: nat)
    requires g.Valid() && e < |g.edges|
    ensures g.edges[e].src < g.blocks && g.edges[e].dest < g.blocks
  {
    hide Graph.ListsDistinct;
  }

  // ---------- versions follow places ----------

  /** The versions of the last writes. */
  function Read(v: Versions, last: seq<Place>): (r: seq<nat>)
    ensures |r| == |last|
  {
    seq(|last|, x requires 0 <= x < |last| => VersionOf(v, last[x]))
  }

  lemma {:induction false} ReadAssign(v: Versions, last: seq<Place>, vars: seq<nat>, places: seq<Place>)
    requires |vars| == |places| && forall k :: 0 <= k < |vars| ==> vars[k] < |last|
    ensures Read(v, Assign(last, vars, places)) == Assign(Read(v, last), vars, Read(v, places))
    decreases |vars|
  {
    if vars != [] {
      var n := |vars| - 1;
      ReadAssign(v, last, vars[..n], places[..n]);
      assert vars == vars[..n] + [vars[n]];
      assert Read(v, places)[..n] == Read(v, places[..n]);
    }
  }

  lemma ReadExecute(p: Placed, v: Versions, b: nat, i: nat, last: seq<Place>)
    requires p.Valid() && b < p.f.g.blocks && i < |p.Body(b)| && |last| == p.f.vars
    ensures Read(v, Execute(p, b, i, last)) == AfterInst(p, v, b, i, Read(v, last))
  {
    hide Placed.Body, Graph.Valid;
    BodyOk(p, b, i);
    var inst := p.Body(b)[i];
    ReadAssign(v, last, inst.defs, DefPlaces(b, i, |inst.defs|));
    assert Read(v, DefPlaces(b, i, |inst.defs|)) == DefVals(v, b, i, |inst.defs|);
    if inst.call {
      ReadAssign(v, Assign(last, inst.defs, DefPlaces(b, i, |inst.defs|)), p.f.globals,
        ImplicitPlaces(b, i, |p.f.globals|));
      assert Read(v, ImplicitPlaces(b, i, |p.f.globals|)) == ImplicitVals(v, b, i, |p.f.globals|);
    }
  }

  lemma {:induction false} ReadExecuteTo(p: Placed, v: Versions, b: nat, last: seq<Place>, i: nat)
    requires p.Valid() && b < p.f.g.blocks && i <= |p.Body(b)| && |last| == p.f.vars
    ensures Read(v, ExecuteTo(p, b, last, i)) == TopsAt(p, v, b, Read(v, last), i)
    decreases i
  {
    hide Placed.Body, Placed.Valid, Execute, AfterInst;
    if i > 0 {
      ReadExecuteTo(p, v, b, last, i - 1);
      ReadExecute(p, v, b, i - 1, ExecuteTo(p, b, last, i - 1));
    }
  }

  // ---------- agreement where a variable is live ----------

  /** s and t hold the same version of every variable of the set. */
  ghost predicate Agree(s: seq<nat>, t: seq<nat>, vars: set<nat>) {
    |s| == |t| && forall x :: x in vars && x < |s| ==> s[x] == t[x]
  }

  lemma {:induction false} AssignAgrees(s: seq<nat>, t: seq<nat>, vars: seq<nat>, vals: seq<nat>, before: set<nat>,
                                        after: set<nat>)
    requires |s| == |t| && |vars| == |vals| && (forall k :: 0 <= k < |vars| ==> vars[k] < |s|) && Agree(s, t, before)
    requires forall x :: x in after && x !in vars ==> x in before
    ensures Agree(Assign(s, vars, vals), Assign(t, vars, vals), after)
    decreases |vars|
  {
    if vars != [] {
      var n := |vars| - 1;
      assert vars == vars[..n] + [vars[n]];
      AssignAgrees(s, t, vars[..n], vals[..n], before, after - {vars[n]});
    }
  }

  lemma InstAgrees(p: Placed, v: Versions, b: nat, i: nat, s: seq<nat>, t: seq<nat>, after: set<nat>)
    requires p.Valid() && b < p.f.g.blocks && i < |p.Body(b)| && |s| == |t| == p.f.vars
    requires Agree(s, t, Before(p.Body(b)[i], p.f.globals, after))
    ensures Agree(AfterInst(p, v, b, i, s), AfterInst(p, v, b, i, t), after)
  {
    hide Placed.Body, Graph.Valid;
    BodyOk(p, b, i);
    var inst := p.Body(b)[i];
    var before := Before(inst, p.f.globals, after);
    AssignAgrees(s, t, inst.defs, DefVals(v, b, i, |inst.defs|), before, after);
    if inst.call {
      AssignAgrees(Assign(s, inst.defs, DefVals(v, b, i, |inst.defs|)),
        Assign(t, inst.defs, DefVals(v, b, i, |inst.defs|)),
        p.f.globals, ImplicitVals(v, b, i, |p.f.globals|), after, after);
    }
  }

  /** What must be current before instruction n of a body: nothing that a later phi
      writes, and what is live in the code. */
  ghost function NeededAt(p: Placed, out: set<nat>, b: nat, i: nat): set<nat>
    requires b < |p.phis| && b < |p.f.code| && i <= |p.Body(b)|
  {
    LiveAt(p.Body(b), p.f.globals, out, i)
  }

  lemma {:induction false} BodyAgrees(p: Placed, v: Versions, b: nat, s: seq<nat>, t: seq<nat>, out: set<nat>, i: nat)
    requires p.Valid() && b < p.f.g.blocks && i <= |p.Body(b)| && |s| == |t| == p.f.vars
    requires b < |p.phis| && b < |p.f.code| && Agree(s, t, NeededAt(p, out, b, 0))
    ensures Agree(TopsAt(p, v, b, s, i), TopsAt(p, v, b, t, i), NeededAt(p, out, b, i))
    decreases i
  {
    hide Placed.Body, Placed.Valid, AfterInst, Agree;
    if i > 0 {
      BodyAgrees(p, v, b, s, t, out, i - 1);
      InstAgrees(p, v, b, i - 1, TopsAt(p, v, b, s, i - 1), TopsAt(p, v, b, t, i - 1), NeededAt(p, out, b, i));
    }
  }

  /** The phis take away what they write. */
  lemma {:induction false} NeededAtStart(p: Placed, out: set<nat>, b: nat, i: nat, x: nat)
    requires b < |p.phis| && b < |p.f.code| && i <= |p.phis[b]|
    ensures x in NeededAt(p, out, b, i) <==> x in LiveAt(p.f.code[b], p.f.globals, out, 0) && x !in p.phis[b][i..]
    decreases |p.phis[b]| - i
  {
    if i < |p.phis[b]| {
      NeededAtStart(p, out, b, i + 1, x);
      assert p.phis[b][i..] == [p.phis[b][i]] + p.phis[b][i + 1..];
      assert p.Body(b)[i] == Inst([], [p.phis[b][i]], false);
    } else {
      CodeSuffix(p, out, b, 0);
    }
  }

  lemma {:induction false} CodeSuffix(p: Placed, out: set<nat>, b: nat, i: nat)
    requires b < |p.phis| && b < |p.f.code| && i <= |p.f.code[b]|
    ensures LiveAt(p.Body(b), p.f.globals, out, |p.phis[b]| + i) == LiveAt(p.f.code[b], p.f.globals, out, i)
    decreases |p.f.code[b]| - i
  {
    if i < |p.f.code[b]| {
      CodeSuffix(p, out, b, i + 1);
      assert p.Body(b)[|p.phis[b]| + i] == p.f.code[b][i];
    }
  }

  // ---------- between a join and its immediate dominator ----------

  /** The results of the earlier phases fit together. */
  ghost predicate Ready(p: Placed, dom: seq<set<nat>>, idom: seq<MaybeBlock>, df: seq<set<nat>>, live: seq<set<nat>>,
                        kills: seq<set<nat>>) {
    && TreeOk(p, dom, idom) && p.f.g.AllReachable()
    && |df| == p.f.g.blocks && FrontiersExact(p.f.g, df)
    && LivenessExact(p.f, live)
    && |kills| == p.f.g.blocks && (forall b :: 0 <= b < p.f.g.blocks ==> kills[b] == Kills(p.f.code[b], p.f.globals))
    && PhiClosed(df, live, kills, p.phis) && PhisLive(live, p.phis)
  }

  ghost predicate PhisLive(live: seq<set<nat>>, phis: seq<seq<nat>>) {
    forall y: nat, x: nat :: HasPhi(phis, y, x) ==> y < |live| && x in live[y]
  }

  ghost predicate FrontiersExact(g: Graph, df: seq<set<nat>>)
    requires g.Valid() && |df| == g.blocks
  {
    forall x: nat, b: nat :: Live(g, x) && Live(g, b) ==> (b in df[x] <==> InFrontier(g, x, b))
  }

  lemma {:induction false} NotKilled(insts: seq<Inst>, globals: seq<nat>, i: nat, x: nat)
    requires i < |insts| && x !in Kills(insts, globals)
    ensures x !in insts[i].defs && (insts[i].call ==> x !in globals)
    decreases |insts|
  {
    var n := |insts| - 1;
    if i < n {
      NotKilled(insts[..n], globals, i, x);
    } else {
      assert x !in Elems(insts[n].defs);
      assert insts[n].call ==> x !in Elems(globals);
    }
  }

  /** A block that does not define a variable passes its version on. */
  lemma {:induction false} PassesOn(p: Placed, v: Versions, b: nat, tops: seq<nat>, i: nat, x: nat)
    requires p.Valid() && b < p.f.g.blocks && i <= |p.Body(b)| && |tops| == p.f.vars && x < p.f.vars
    requires x !in Kills(p.f.code[b], p.f.globals) && x !in p.phis[b]
    ensures TopsAt(p, v, b, tops, i)[x] == tops[x]
    decreases i
  {
    hide Graph.Valid;
    if i > 0 {
      PassesOn(p, v, b, tops, i - 1, x);
      BodyOk(p, b, i - 1);
      if i - 1 >= |p.phis[b]| {
        NotKilled(p.f.code[b], p.f.globals, i - 1 - |p.phis[b]|, x);
      }
    }
  }

  /** From a predecessor up to the immediate dominator of a block without a phi for a
      live variable, nothing defines that variable. */
  lemma {:induction false} NothingBetween(p: Placed, dom: seq<set<nat>>, idom: seq<MaybeBlock>, df: seq<set<nat>>,
                                          live: seq<set<nat>>, kills: seq<set<nat>>, 
                                          v: Versions, e: nat, x: nat, r: nat, top: nat)
    requires Ready(p, dom, idom, df, live, kills) && e < |p.f.g.edges| && x < p.f.vars
    requires var d := p.f.g.edges[e].dest;
               d < |live| && Live(p.f.g, d) && x in live[d] && !HasPhi(p.phis, d, x)
                 && ImmediatelyDominates(p.f.g, top, d)
    requires Live(p.f.g, p.f.g.edges[e].src) && Live(p.f.g, r) && Live(p.f.g, top)
    requires Dominates(p.f.g, r, p.f.g.edges[e].src) && Dominates(p.f.g, top, r)
    ensures ExitTops(p, dom, idom, v, r)[x] == ExitTops(p, dom, idom, v, top)[x]
    decreases |dom[r]|
  {
    hide DomExact, IdomExact, Graph.Valid, Placed.Body, LivenessExact, PhiClosed, FrontiersExact, Dominates, TopsAt,
         Graph.AllReachable, HasPhi, Func.Valid;
    var g, d := p.f.g, p.f.g.edges[e].dest;
    ReadyShape(p, dom, idom, df, live, kills);
    if r != top {
      if r == g.entry {
        EntryHasNoDominator(g, top);
      }
      SegmentIsFrontier(g, d, e, top, r);
      InDf(g, df, d, e, r);
      UndefinedThere(df, live, kills, p, r, d, x);
      PassesOn(p, v, r, EntryTops(p, dom, idom, v, r), |p.Body(r)|, x);
      IdomShrinks(g, dom, idom, r);
      DominatorsChain(g, idom, top, r);
      var up := idom[r].block;
      DominatesSelf(g, up);
      DominatorsChain(g, idom, up, r);
      DominatesTrans(g, up, r, g.edges[e].src);
      NothingBetween(p, dom, idom, df, live, kills, v, e, x, up, top);
    }
  }

  lemma InDf(g: Graph, df: seq<set<nat>>, d: nat, e: nat, r: nat)
    requires g.Valid() && |df| == g.blocks && FrontiersExact(g, df) && Live(g, r) && Live(g, d)
    requires e < |g.edges| && g.edges[e].dest == d && Dominates(g, r, g.edges[e].src) && !StrictlyDominates(g, r, d)
    ensures r < g.blocks && d in df[r]
  {
    hide Graph.ListsDistinct, Dominates;
    assert e in g.preds[d];
    var k :| 0 <= k < |g.preds[d]| && g.preds[d][k] == e;
    assert InFrontier(g, r, d);
  }

  lemma UndefinedThere(df: seq<set<nat>>, live: seq<set<nat>>, kills: seq<set<nat>>, p: Placed, r: nat, d: nat, x: nat)
    requires PhiClosed(df, live, kills, p.phis) && r < |df| && d < |live| && d in df[r] && x in live[d]
    requires !HasPhi(p.phis, d, x)
    requires p.Valid() && r < p.f.g.blocks == |kills| && kills[r] == Kills(p.f.code[r], p.f.globals)
    ensures x !in Kills(p.f.code[r], p.f.globals) && x !in p.phis[r]
  {
    hide Graph.Valid;
    assert !Defines(kills, p.phis, r, x);
  }

  // ---------- every path ----------

  /** On arrival at a block, the last writes along the path have the versions that the
      dominator tree gives, for every variable that the block still needs. */
  lemma {:induction false} ArrivalAgrees(p: Placed, dom: seq<set<nat>>, idom: seq<MaybeBlock>, df: seq<set<nat>>,
                                         live: seq<set<nat>>, kills: seq<set<nat>>, 
                                         v: Versions, es: seq<nat>, b: nat)
    requires Ready(p, dom, idom, df, live, kills) && b < p.f.g.blocks && p.f.g.Walk(p.f.g.entry, es, b)
    ensures Live(p.f.g, b) && b < |p.phis| && b < |p.f.code| && |live| == p.f.g.blocks
    ensures Agree(Read(v, Arrive(p, es, b)), EntryTops(p, dom, idom, v, b), NeededAt(p, LiveOut(p.f.g, live, b), b, 0))
    decreases |es|
  {
    hide DomExact, IdomExact, Graph.Valid, Placed.Body, LivenessExact, PhiClosed, FrontiersExact, Dominates, TopsAt,
         Graph.AllReachable,
         NeededAt, LiveOut, ExecuteTo, Func.Valid;
    var g := p.f.g;
    ReadyShape(p, dom, idom, df, live, kills);
    assert g.Reaches(g.entry, b);
    if es != [] {
      var n := |es| - 1;
      var e := es[n];
      var src := g.edges[e].src;
      SourceInRange(g, e);
      ArrivalAgrees(p, dom, idom, df, live, kills, v, es[..n], src);
      var s, t := Read(v, Arrive(p, es[..n], src)), EntryTops(p, dom, idom, v, src);
      BodyAgrees(p, v, src, s, t, LiveOut(g, live, src), |p.Body(src)|);
      ReadExecuteTo(p, v, src, Arrive(p, es[..n], src), |p.Body(src)|);
      EdgeAgrees(p, dom, idom, df, live, kills, v, e, TopsAt(p, v, src, s, |p.Body(src)|));
    }
  }

  lemma ReadyShape(p: Placed, dom: seq<set<nat>>, idom: seq<MaybeBlock>, df: seq<set<nat>>, live: seq<set<nat>>,
                   kills: seq<set<nat>>)
    requires Ready(p, dom, idom, df, live, kills)
    ensures p.Valid() && p.f.Valid() && p.f.g.Valid()
    ensures |p.phis| == |p.f.code| == |live| == |idom| == |dom| == p.f.g.blocks
  {
    hide Graph.Valid, Graph.AllReachable;
  }

  lemma EdgeAgrees(p: Placed, dom: seq<set<nat>>, idom: seq<MaybeBlock>, df: seq<set<nat>>, live: seq<set<nat>>,
                   kills: seq<set<nat>>, 
                   v: Versions, e: nat, out: seq<nat>)
    requires Ready(p, dom, idom, df, live, kills) && e < |p.f.g.edges| && Live(p.f.g, p.f.g.edges[e].src)
    requires Live(p.f.g, p.f.g.edges[e].dest)
    requires |live| == p.f.g.blocks
    requires var src := p.f.g.edges[e].src;
             src < |p.phis| && src < |p.f.code|
               && Agree(out, ExitTops(p, dom, idom, v, src), NeededAt(p, LiveOut(p.f.g, live, src), src, |p.Body(src)|))
    ensures p.f.g.edges[e].dest < |p.phis| && p.f.g.edges[e].dest < |p.f.code|
    ensures var d := p.f.g.edges[e].dest;
            Agree(out, EntryTops(p, dom, idom, v, d), NeededAt(p, LiveOut(p.f.g, live, d), d, 0))
  {
    hide DomExact, IdomExact, Graph.Valid, Placed.Body, LivenessExact, PhiClosed, FrontiersExact, Dominates, TopsAt,
         Graph.AllReachable,
         LiveOut, Func.Valid;
    var g, src, d := p.f.g, p.f.g.edges[e].src, p.f.g.edges[e].dest;
    ReadyShape(p, dom, idom, df, live, kills);
    EntryHasNoEdge(g, e);
    IdomShrinks(g, dom, idom, d);
    var top := idom[d].block;
    IdomImmediate(g, idom, d);
    DominatesSelf(g, src);
    DominatesSources(g, top, d, e);
    forall x | x in NeededAt(p, LiveOut(g, live, d), d, 0) && x < |out|
      ensures out[x] == EntryTops(p, dom, idom, v, d)[x]
    {
      NeededAtStart(p, LiveOut(g, live, d), d, 0, x);
      ExactIsClosed(p.f, live, d);
      assert p.phis[d][0..] == p.phis[d];
      EdgeInSuccs(g, e);
      LiveThrough(p.f, live, src, d, x);
      NothingBetween(p, dom, idom, df, live, kills, v, e, x, src, top);
    }
  }

  lemma IdomImmediate(g: Graph, idom: seq<MaybeBlock>, d: nat)
    requires IdomExact(g, idom) && Live(g, d) && idom[d].Block?
    ensures ImmediatelyDominates(g, idom[d].block, d)
  {
  }

  lemma EntryHasNoEdge(g: Graph, e: nat)
    requires g.Valid() && e < |g.edges|
    ensures g.edges[e].dest != g.entry
  {
    hide Graph.ListsDistinct;
  }

  lemma EdgeInSuccs(g: Graph, e: nat)
    requires g.Valid() && e < |g.edges|
    ensures |g.succs| == g.blocks && g.edges[e].src < g.blocks
    ensures exists k :: 0 <= k < |g.succs[g.edges[e].src]| && g.succs[g.edges[e].src][k] < |g.edges| &&
                        g.edges[g.succs[g.edges[e].src][k]].dest == g.edges[e].dest
  {
    hide Graph.ListsDistinct;
    assert e in g.succs[g.edges[e].src];
    var k :| 0 <= k < |g.succs[g.edges[e].src]| && g.succs[g.edges[e].src][k] == e;
  }

  // ---------- the theorems ----------

  /** Whatever path leads to an instruction, a variable it reads carries the version of
      the last write of that variable on the path. */
  ghost predicate UsesCarryLastWrite(p: Placed, v: Versions)
    requires p.Valid()
  {
    forall es, b: nat, i: nat, k: nat ::
      b < p.f.g.blocks && p.f.g.Walk(p.f.g.entry, es, b) && i < |p.Body(b)| && k < |p.Body(b)[i].uses| ==>
      (BodyOk(p, b, i); Get(v, Use(b, i, k)) == VersionOf(v, Reaching(p, es, b, i, p.Body(b)[i].uses[k])))
  }

  /** The operand of a phi for an edge carries the version of the last write on every
      path that ends with that edge. */
  ghost predicate ArgsCarryLastWrite(p: Placed, v: Versions)
    requires p.Valid()
  {
    forall es, src: nat, d: nat, i: nat, j: nat ::
      src < p.f.g.blocks && d < p.f.g.blocks && p.f.g.Walk(p.f.g.entry, es, src) && FirstEdgeFrom(p.f.g, d, src, j)
        && i < |p.phis[d]| ==>
        Get(v, Arg(d, i, j)) == VersionOf(v, Reaching(p, es, src, |p.Body(src)|, p.phis[d][i]))
  }

  /** One version, one write: all writes in reachable blocks have versions of their own. */
  ghost predicate OneWritePerVersion(p: Placed, v: Versions)
    requires p.Valid()
  {
    && (forall s, x: nat :: WritePlace(p, s, x) && Live(p.f.g, s.block) ==> Get(v, s) > 0)
    && (forall s, t, x: nat, y: nat ::
          (WritePlace(p, s, x) && WritePlace(p, t, y) && Live(p.f.g, s.block) && Live(p.f.g, t.block)
           && x < p.f.vars && y < p.f.vars && p.base[x] == p.base[y] && Get(v, s) == Get(v, t)) ==> s == t)
  }

  lemma UseCarriesLastWrite(p: Placed, dom: seq<set<nat>>, idom: seq<MaybeBlock>, df: seq<set<nat>>,
                            live: seq<set<nat>>, kills: seq<set<nat>>, 
                            v: Versions, es: seq<nat>, b: nat, i: nat, k: nat)
    requires Ready(p, dom, idom, df, live, kills) && b < p.f.g.blocks && p.f.g.Walk(p.f.g.entry, es, b)
    requires Live(p.f.g, b) ==> BlockRenamed(p, dom, idom, v, b)
    requires i < |p.Body(b)| && k < |p.Body(b)[i].uses|
    ensures p.Body(b)[i].uses[k] < p.f.vars
    ensures Get(v, Use(b, i, k)) == VersionOf(v, Reaching(p, es, b, i, p.Body(b)[i].uses[k]))
  {
    hide DomExact, IdomExact, Graph.Valid, Placed.Body, LivenessExact, PhiClosed, FrontiersExact, Dominates, TopsAt,
         Graph.AllReachable,
         LiveOut, ExecuteTo, Func.Valid, ArgsRenamed, Written;
    ReadyShape(p, dom, idom, df, live, kills);
    ArrivalAgrees(p, dom, idom, df, live, kills, v, es, b);
    BodyOk(p, b, i);
    var x, out := p.Body(b)[i].uses[k], LiveOut(p.f.g, live, b);
    var s, t := Read(v, Arrive(p, es, b)), EntryTops(p, dom, idom, v, b);
    BodyAgrees(p, v, b, s, t, out, i);
    assert x in NeededAt(p, out, b, i);
    ReadExecuteTo(p, v, b, Arrive(p, es, b), i);
    assert Read(v, ExecuteTo(p, b, Arrive(p, es, b), i))[x] == TopsAt(p, v, b, t, i)[x];
  }

  lemma ArgCarriesLastWrite(p: Placed, dom: seq<set<nat>>, idom: seq<MaybeBlock>, df: seq<set<nat>>,
                            live: seq<set<nat>>, kills: seq<set<nat>>, 
                            v: Versions, es: seq<nat>, src: nat, d: nat, i: nat, j: nat)
    requires Ready(p, dom, idom, df, live, kills) && src < p.f.g.blocks && d < p.f.g.blocks
    requires p.f.g.Walk(p.f.g.entry, es, src)
    requires Live(p.f.g, src) ==> BlockRenamed(p, dom, idom, v, src)
    requires FirstEdgeFrom(p.f.g, d, src, j) && i < |p.phis[d]|
    ensures Get(v, Arg(d, i, j)) == VersionOf(v, Reaching(p, es, src, |p.Body(src)|, p.phis[d][i]))
  {
    hide DomExact, IdomExact, Placed.Body, LivenessExact, PhiClosed, FrontiersExact, Dominates, TopsAt,
         Graph.AllReachable,
         LiveOut, ExecuteTo, Func.Valid, UsesRenamed, Written, Graph.ListsDistinct, UsesRenamed;
    ReadyShape(p, dom, idom, df, live, kills);
    ArrivalAgrees(p, dom, idom, df, live, kills, v, es, src);
    var n, x, out := |p.Body(src)|, p.phis[d][i], LiveOut(p.f.g, live, src);
    var s, t := Read(v, Arrive(p, es, src)), EntryTops(p, dom, idom, v, src);
    BodyAgrees(p, v, src, s, t, out, n);
    assert HasPhi(p.phis, d, x);
    EdgeInSuccs(p.f.g, p.f.g.preds[d][j]);
    LiveThrough(p.f, live, src, d, x);
    assert x in NeededAt(p, out, src, n);
    ReadExecuteTo(p, v, src, Arrive(p, es, src), n);
    assert Read(v, ExecuteTo(p, src, Arrive(p, es, src), n))[x] == TopsAt(p, v, src, t, n)[x];
  }

  lemma WritesApart(p: Placed, dom: seq<set<nat>>, idom: seq<MaybeBlock>, v: Versions, counts: map<nat, nat>)
    requires TreeOk(p, dom, idom) && Distinct(p, v, counts)
    requires forall b: nat :: Live(p.f.g, b) ==> BlockRenamed(p, dom, idom, v, b)
    ensures OneWritePerVersion(p, v)
  {
    hide Graph.Valid, DomExact, IdomExact, Placed.Body, UsesRenamed, ArgsRenamed;
    forall s, x: nat | WritePlace(p, s, x) && Live(p.f.g, s.block) ensures s in v && Get(v, s) > 0 {
      assert Written(p, v, s.block, |p.Body(s.block)|);
    }
  }

  lemma AllCarry(p: Placed, dom: seq<set<nat>>, idom: seq<MaybeBlock>, df: seq<set<nat>>, live: seq<set<nat>>,
                 kills: seq<set<nat>>, v: Versions)
    requires Ready(p, dom, idom, df, live, kills)
    requires forall b: nat :: Live(p.f.g, b) ==> BlockRenamed(p, dom, idom, v, b)
    ensures UsesCarryLastWrite(p, v) && ArgsCarryLastWrite(p, v)
  {
    hide Graph.Valid, DomExact, IdomExact, Placed.Body, UsesRenamed, ArgsRenamed, BlockRenamed, PhiClosed,
         FrontiersExact, LivenessExact, Reaching, FirstEdgeFrom, Live;
    forall es, b: nat, i: nat, k: nat | b < p.f.g.blocks && p.f.g.Walk(p.f.g.entry, es, b) && i < |p.Body(b)|
      && k < |p.Body(b)[i].uses|
      ensures p.Body(b)[i].uses[k] < p.f.vars
      ensures Get(v, Use(b, i, k)) == VersionOf(v, Reaching(p, es, b, i, p.Body(b)[i].uses[k]))
    {
      UseCarriesLastWrite(p, dom, idom, df, live, kills, v, es, b, i, k);
    }
    forall es, src: nat, d: nat, i: nat, j: nat |
      src < p.f.g.blocks && d < p.f.g.blocks && p.f.g.Walk(p.f.g.entry, es, src) && FirstEdgeFrom(p.f.g, d, src, j)
        && i < |p.phis[d]|
      ensures Get(v, Arg(d, i, j)) == VersionOf(v, Reaching(p, es, src, |p.Body(src)|, p.phis[d][i]))
    {
      ArgCarriesLastWrite(p, dom, idom, df, live, kills, v, es, src, d, i, j);
    }
  }

  // ---------- the version tells the write ----------

  /** What an execution records for a variable is a write of that variable in a block
      that can be reached. */
  ghost predicate Genuine(p: Placed, last: seq<Place>)
    requires p.Valid()
  {
    && |last| == p.f.vars
    && forall x: nat :: x < |last| && last[x].At? ==> WritePlace(p, last[x].slot, x) && Live(p.f.g, last[x].slot.block)
  }

  lemma {:induction false} AssignGenuine(p: Placed, last: seq<Place>, vars: seq<nat>, places: seq<Place>)
    requires p.Valid() && Genuine(p, last) && |vars| == |places|
    requires forall k :: 0 <= k < |vars| ==>
               vars[k] < p.f.vars && places[k].At? && WritePlace(p, places[k].slot, vars[k])
                 && Live(p.f.g, places[k].slot.block)
    ensures Genuine(p, Assign(last, vars, places))
    decreases |vars|
  {
    hide Placed.Valid, WritePlace, Live;
    if vars != [] {
      var n := |vars| - 1;
      assert vars == vars[..n] + [vars[n]];
      AssignGenuine(p, last, vars[..n], places[..n]);
    }
  }

  lemma {:induction false} BodyGenuine(p: Placed, b: nat, last: seq<Place>, i: nat)
    requires p.Valid() && b < p.f.g.blocks && Live(p.f.g, b) && i <= |p.Body(b)| && Genuine(p, last)
    ensures Genuine(p, ExecuteTo(p, b, last, i))
    decreases i
  {
    hide Placed.Body, Live, Graph.Valid;
    if i > 0 {
      BodyGenuine(p, b, last, i - 1);
      BodyOk(p, b, i - 1);
      var inst, now := p.Body(b)[i - 1], ExecuteTo(p, b, last, i - 1);
      AssignGenuine(p, now, inst.defs, DefPlaces(b, i - 1, |inst.defs|));
      if inst.call {
        AssignGenuine(p, Assign(now, inst.defs, DefPlaces(b, i - 1, |inst.defs|)), p.f.globals,
          ImplicitPlaces(b, i - 1, |p.f.globals|));
      }
    }
  }

  lemma {:induction false} ArriveGenuine(p: Placed, es: seq<nat>, b: nat)
    requires p.Valid() && b < p.f.g.blocks && p.f.g.Walk(p.f.g.entry, es, b)
    ensures Genuine(p, Arrive(p, es, b)) && Live(p.f.g, b)
    decreases |es|
  {
    hide Placed.Body, Graph.Valid, ExecuteTo;
    assert p.f.g.Reaches(p.f.g.entry, b);
    if es != [] {
      var n := |es| - 1;
      var src := p.f.g.edges[es[n]].src;
      SourceInRange(p.f.g, es[n]);
      ArriveGenuine(p, es[..n], src);
      BodyGenuine(p, src, Arrive(p, es[..n], src), |p.Body(src)|);
    }
  }

  /** An operand and a write of a variable of the same source variable carry the same
      version exactly when that write is the last one on every path to the operand. */
  lemma VersionTellsWrite(p: Placed, v: Versions, es: seq<nat>, b: nat, i: nat, k: nat, s: Slot, y: nat)
    requires p.Valid() && UsesCarryLastWrite(p, v) && OneWritePerVersion(p, v)
    requires b < p.f.g.blocks && p.f.g.Walk(p.f.g.entry, es, b) && i < |p.Body(b)| && k < |p.Body(b)[i].uses|
    requires WritePlace(p, s, y) && Live(p.f.g, s.block) && y < p.f.vars
    requires p.Body(b)[i].uses[k] < p.f.vars && p.base[y] == p.base[p.Body(b)[i].uses[k]]
    ensures Get(v, s) == Get(v, Use(b, i, k)) <==> Reaching(p, es, b, i, p.Body(b)[i].uses[k]) == At(s)
  {
    hide Placed.Body, Graph.Valid, ExecuteTo, WritePlace, Live;
    var x := p.Body(b)[i].uses[k];
    ArriveGenuine(p, es, b);
    BodyGenuine(p, b, Arrive(p, es, b), i);
    var r := Reaching(p, es, b, i, x);
    assert Get(v, Use(b, i, k)) == VersionOf(v, r);
    assert Get(v, s) > 0;
  }
}
