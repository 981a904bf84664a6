/** Lazy code motion evaluates an expression as seldom as any correct and safe placement does,
    on every path (opt/lcm.c). */
module LcmOptimal {
  import opened Cfg
  import opened MustFlow
  import opened Lcm
  import opened LcmPlacement
  import opened LcmPaths
  import opened LcmCorrectness

  /** On which edges copies are inserted, and in which blocks the instruction is deleted. */
  datatype Placement = Placement(ins: seq<Bits>, del: seq<Bits>)

  function Chosen(f: Solution): Placement {
    Placement(f.ins, f.del)
  }

  ghost predicate Fits(g: Graph, loc: Local, q: Placement, x: nat) {
    && |q.ins| == |g.edges| && |q.del| == |loc.antloc| == g.blocks
    && forall b :: 0 <= b < g.blocks && x in q.del[b] ==> x in loc.antloc[b]
  }

  /** A temporary that holds the value when the block is entered holds it at its end. */
  ghost predicate Passes(loc: Local, x: nat, b: nat) {
    && b < |loc.transp| && b < |loc.avloc| && b < |loc.antloc|
    && (x in loc.transp[b] || (x in loc.avloc[b] && x in loc.antloc[b]))
  }

  /** At the end of the walk the temporary holds the current value. */
  ghost predicate Held(g: Graph, loc: Local, ins: seq<Bits>, x: nat, es: seq<nat>)
    requires |ins| == |g.edges|
  {
    es != [] && var e := es[|es| - 1];
    e < |g.edges| && (x in ins[e] || (Passes(loc, x, g.edges[e].src) && Held(g, loc, ins, x, es[..|es| - 1])))
  }

  /** Whatever path leads to a deleted instruction, the temporary holds its value. */
  ghost predicate Correct(g: Graph, loc: Local, q: Placement, x: nat)
    requires Fits(g, loc, q, x)
  {
    forall es, b: nat :: b < g.blocks && x in q.del[b] && g.Walk(g.entry, es, b) ==> Held(g, loc, q.ins, x, es)
  }

  /** Nothing is inserted where the value may not be needed. */
  ghost predicate Safe(g: Graph, loc: Local, q: Placement, x: nat)
    requires Fits(g, loc, q, x) && |loc.transp| == g.blocks
  {
    forall e: nat, es :: e < |g.edges| && x in q.ins[e] ==> !LostOn(g, loc.antloc, loc.transp, x, g.edges[e].dest, es)
  }

  ghost predicate Admissible(g: Graph, loc: Local, q: Placement, x: nat)
    requires loc.Valid(g)
  {
    Fits(g, loc, q, x) && Correct(g, loc, q, x) && Safe(g, loc, q, x)
  }

  // ---------- what correct means, and that the pass is admissible ----------

  lemma {:induction false} HeldIsCurrent<S(!new), V(!new)>(
      g: Graph, loc: Local, m: Semantics<S, V>, ins: seq<Bits>, x: nat, es: seq<nat>, s0: S, t0: V)
    requires g.Valid() && loc.Valid(g) && m.Respects(g, loc, x) && |ins| == |g.edges| && Held(g, loc, ins, x, es)
    ensures m.TempAt(g, ins, x, es, s0, t0) == m.val(m.StateAt(g, es, s0))
    decreases |es|
  {
    var n := |es| - 1;
    var e := es[n];
    if x !in ins[e] {
      HeldIsCurrent(g, loc, m, ins, x, es[..n], s0, t0);
      ValueKept(g, loc, m, x, g.edges[e].src, m.StateAt(g, es[..n], s0));
    }
  }

  /** A correct placement preserves meaning. */
  lemma {:induction false} CorrectPreserves<S(!new), V(!new)>(
      g: Graph, loc: Local, q: Placement, m: Semantics<S, V>, x: nat, es: seq<nat>, b: nat, s0: S, t0: V)
    requires g.Valid() && loc.Valid(g) && m.Respects(g, loc, x) && Fits(g, loc, q, x) && Correct(g, loc, q, x)
    requires m.home < g.blocks && g.Walk(g.entry, es, b)
    ensures m.NewTrace(g, q.ins, q.del, x, es, s0, t0) == m.OriginalTrace(g, es, s0)
    decreases |es|
  {
    if es != [] {
      CorrectPreserves(g, loc, q, m, x, es[..|es| - 1], g.edges[es[|es| - 1]].src, s0, t0);
    }
    if b == m.home && x in q.del[m.home] {
      HeldIsCurrent(g, loc, m, q.ins, x, es, s0, t0);
    }
  }

  /** The instruction is in one block. */
  ghost predicate OneHome(loc: Local, x: nat, home: nat) {
    && (forall b :: 0 <= b < |loc.antloc| && x in loc.antloc[b] ==> b == home)
    && (forall b :: 0 <= b < |loc.avloc| && x in loc.avloc[b] ==> b == home)
  }

  /** States are numbers, the value of the expression is the state, and every block that need
      not keep it makes it larger. */
  ghost function Drifting(loc: Local, x: nat, home: nat): Semantics<int, int> {
    var still := home < |loc.antloc| && home < |loc.transp| && (x in loc.antloc[home] || x in loc.transp[home]);
    Semantics(home, (s: int) => if still then s else s + 1,
              (b: nat, s: int) => if Passes(loc, x, b) then s else s + 1, (s: int) => s)
  }

  lemma DriftRespects(g: Graph, loc: Local, x: nat, home: nat)
    requires loc.Valid(g) && home < g.blocks && OneHome(loc, x, home)
    ensures Drifting(loc, x, home).Respects(g, loc, x)
  {
  }

  lemma {:induction false} Drifts(g: Graph, loc: Local, ins: seq<Bits>, x: nat, home: nat, es: seq<nat>, b: nat)
    requires |ins| == |g.edges| && g.Walk(g.entry, es, b)
    ensures var m := Drifting(loc, x, home);
            && m.StateAt(g, es, 0) >= 0 && m.TempAt(g, ins, x, es, 0, -1) <= m.StateAt(g, es, 0)
            && (!Held(g, loc, ins, x, es) ==> m.TempAt(g, ins, x, es, 0, -1) < m.StateAt(g, es, 0))
    decreases |es|
  {
    if es != [] {
      Drifts(g, loc, ins, x, home, es[..|es| - 1], g.edges[es[|es| - 1]].src);
    }
  }

  /** ... and only a correct one does: on a path to a deleted instruction on which the temporary
      does not hold the value, there are blocks that behave as the local properties say and make
      the function yield something else. */
  lemma IncorrectChanges(g: Graph, loc: Local, q: Placement, x: nat, home: nat, es: seq<nat>)
    requires g.Valid() && loc.Valid(g) && Fits(g, loc, q, x) && OneHome(loc, x, home) && home < g.blocks
    requires g.Walk(g.entry, es, home) && x in q.del[home] && !Held(g, loc, q.ins, x, es)
    ensures var m := Drifting(loc, x, home);
            && m.Respects(g, loc, x) && m.home == home
            && m.NewTrace(g, q.ins, q.del, x, es, 0, -1) != m.OriginalTrace(g, es, 0)
  {
    DriftRespects(g, loc, x, home);
    Drifts(g, loc, q.ins, x, home, es, home);
    var m := Drifting(loc, x, home);
    var before := if es == [] then [] else m.OriginalTrace(g, es[..|es| - 1], 0);
    var after := if es == [] then [] else m.NewTrace(g, q.ins, q.del, x, es[..|es| - 1], 0, -1);
    assert Last(g, es) == home;
    assert m.OriginalTrace(g, es, 0) == before + [m.StateAt(g, es, 0)];
    assert m.NewTrace(g, q.ins, q.del, x, es, 0, -1) == after + [m.TempAt(g, q.ins, x, es, 0, -1)];
    assert (before + [m.StateAt(g, es, 0)])[|before|..] == [m.StateAt(g, es, 0)];
    LastDiffers(before, after, m.StateAt(g, es, 0), m.TempAt(g, q.ins, x, es, 0, -1));
  }

  lemma LastDiffers(a: seq<int>, b: seq<int>, x: int, y: int)
    requires x != y
    ensures a + [x] != b + [y]
  {
    assert (a + [x])[|a + [x]| - 1] == x && (b + [y])[|b + [y]| - 1] == y;
  }

  lemma {:induction false} SettledHeld(g: Graph, loc: Local, f: Solution, x: nat, es: seq<nat>, b: nat)
    requires g.Valid() && Solves(g, loc, f) && x in loc.ones
    requires forall c :: 0 <= c < g.blocks && x in loc.avloc[c] ==> x in f.del[c]
    requires g.Walk(g.entry, es, b) && Settled(g, f, x, b)
    ensures Held(g, loc, f.ins, x, es)
    decreases |es|
  {
    hide Graph.Valid, EdgeEquation, AvailEquation, AntEquation;
    var n := |es| - 1;
    var e := es[n];
    if x !in f.ins[e] {
      SettledComesFrom(g, loc, f, x, e);
      SettledHeld(g, loc, f, x, es[..n], g.edges[e].src);
    }
  }

  /** What the two analyses have found is all there is. */
  ghost predicate Analysed(g: Graph, loc: Local, f: Solution)
    requires g.Valid()
  {
    && Solves(g, loc, f) && NoCriticalEdges(g) && g.AllReachable()
    && AvailProblem(g, loc.ones, loc.avloc, f.kill).Fixpoint(f.avout)
    && AvailProblem(g, loc.ones, loc.avloc, f.kill).Greatest(f.avout)
    && AntProblem(g, loc.ones, loc.antloc, loc.transp).Fixpoint(f.antin)
    && AntProblem(g, loc.ones, loc.antloc, loc.transp).Greatest(f.antin)
  }

  /** The pass itself finds an admissible placement. */
  lemma ChosenAdmissible(g: Graph, loc: Local, f: Solution, x: nat, home: nat)
    requires g.Valid() && Analysed(g, loc, f) && x in loc.ones && OneHome(loc, x, home)
    ensures Admissible(g, loc, Chosen(f), x)
  {
    hide EdgeEquation, AvailEquation, AntEquation, Problem.Fixpoint, Problem.Greatest, AvailProblem, AntProblem;
    forall es, b: nat | b < g.blocks && x in f.del[b] && g.Walk(g.entry, es, b) ensures Held(g, loc, f.ins, x, es) {
      DeletedIsSettled(g, loc, f, x, b);
      SettledHeld(g, loc, f, x, es, b);
    }
    forall e: nat, es | e < |g.edges| && x in f.ins[e]
      ensures !LostOn(g, loc.antloc, loc.transp, x, g.edges[e].dest, es)
    {
      var way := WayTo(g, e);
      InsertionIsExact(g, loc, f, x, e, way);
      AnticipatedExactly(g, loc.ones, loc.antloc, loc.transp, f.antin, x, g.edges[e].dest);
    }
  }

  lemma WayTo(g: Graph, e: nat) returns (es: seq<nat>)
    requires g.Valid() && g.AllReachable() && e < |g.edges|
    ensures g.Walk(g.entry, es, g.edges[e].src)
  {
    hide Graph.ListsDistinct;
    var p := g.edges[e].src;
    assert e in g.succs[p];
    if p == g.entry {
      es := [];
    } else {
      assert g.Normal(p);
      es :| g.Walk(g.entry, es, p);
    }
  }

  // ---------- counting ----------

  /** How often x is evaluated before the last block of the walk. */
  function Count(g: Graph, loc: Local, q: Placement, x: nat, es: seq<nat>): nat
    requires g.Valid() && |q.ins| == |g.edges| && |q.del| == |loc.antloc| == g.blocks
    requires forall i :: 0 <= i < |es| ==> es[i] < |g.edges|
  {
    Insertions(q.ins, x, es) + Leaves(g, Kept(loc.antloc, q.del), x, es)
  }

  /** ... and in that block, too. */
  function Done(g: Graph, loc: Local, q: Placement, x: nat, es: seq<nat>, b: nat): nat
    requires g.Valid() && |q.ins| == |g.edges| && |q.del| == |loc.antloc| == g.blocks
    requires forall i :: 0 <= i < |es| ==> es[i] < |g.edges|
  {
    Count(g, loc, q, x, es) + (if b < g.blocks && x in loc.antloc[b] && x !in q.del[b] then 1 else 0)
  }

  lemma CountStep(g: Graph, loc: Local, q: Placement, x: nat, es: seq<nat>)
    requires g.Valid() && |q.ins| == |g.edges| && |q.del| == |loc.antloc| == g.blocks
    requires es != [] && forall i :: 0 <= i < |es| ==> es[i] < |g.edges|
    ensures var n := |es| - 1;
            Count(g, loc, q, x, es) ==
            Done(g, loc, q, x, es[..n], g.edges[es[n]].src) + (if x in q.ins[es[n]] then 1 else 0)
  {
    hide Graph.ListsDistinct;
  }

  /** From edge k on nothing computes x, and there it can be placed for the first time. */
  ghost predicate Opened(g: Graph, loc: Local, f: Solution, x: nat, es: seq<nat>, k: nat) {
    && |loc.antloc| == g.blocks && |f.earliest| == |g.edges| && k < |es|
    && (forall i :: 0 <= i < |es| ==> es[i] < |g.edges| && g.edges[es[i]].src < g.blocks)
    && x in f.earliest[es[k]] && forall j :: k < j < |es| ==> x !in loc.antloc[g.edges[es[j]].src]
  }

  lemma PrefixWalk(g: Graph, es: seq<nat>, b: nat, k: nat)
    requires g.Walk(g.entry, es, b) && k < |es|
    ensures es[k] < |g.edges| && g.Walk(g.entry, es[..k], g.edges[es[k]].src)
    decreases |es|
  {
    if k < |es| - 1 {
      PrefixWalk(g, es[..|es| - 1], g.edges[es[|es| - 1]].src, k);
      assert es[..|es| - 1][..k] == es[..k];
    }
  }

  /** A delayed computation can be followed back to where it was earliest; nothing is
      inserted on the way. */
  lemma {:induction false} DelayedSince(g: Graph, loc: Local, f: Solution, x: nat, es: seq<nat>, b: nat)
                                        returns (k: nat)
    requires g.Valid() && Solves(g, loc, f) && g.Walk(g.entry, es, b) && es != [] && x in f.later[es[|es| - 1]]
    requires forall i :: 0 <= i < |es| ==> es[i] < |g.edges|
    ensures Opened(g, loc, f, x, es, k)
    ensures Count(g, loc, Chosen(f), x, es) ==
            Done(g, loc, Chosen(f), x, es[..k], g.edges[es[k]].src) + (if x in f.ins[es[|es| - 1]] then 1 else 0)
    decreases |es|
  {
    hide Graph.Valid, Solves, Count, Done, Kept;
    SolutionSizes(g, loc, f);
    var n := |es| - 1;
    var e := es[n];
    var p := g.edges[e].src;
    CountStep(g, loc, Chosen(f), x, es);
    if x in f.earliest[e] {
      k := n;
    } else {
      DelayedFrom(g, loc, f, x, e);
      var e0 := es[n - 1];
      k := DelayedSince(g, loc, f, x, es[..n], p);
      assert es[..n][..k] == es[..k];
      NotCounted(g, loc, Chosen(f), x, es[..n], p);
    }
  }

  lemma SolutionSizes(g: Graph, loc: Local, f: Solution)
    requires g.Valid() && Solves(g, loc, f)
    ensures |f.ins| == |f.later| == |f.earliest| == |g.edges| && |f.del| == |loc.antloc| == g.blocks
    ensures forall e :: 0 <= e < |g.edges| ==> g.edges[e].src < g.blocks
  {
    hide Graph.ListsDistinct, EdgeEquation, AvailEquation, AntEquation;
  }

  /** A delayed computation that is not earliest here is delayed on every edge into the block. */
  lemma DelayedFrom(g: Graph, loc: Local, f: Solution, x: nat, e: nat)
    requires g.Valid() && Solves(g, loc, f) && e < |g.edges| && x in f.later[e] && x !in f.earliest[e]
    ensures var p := g.edges[e].src;
            && p < g.blocks && p != g.entry && x !in loc.antloc[p]
            && forall e0 :: 0 <= e0 < |g.edges| && g.edges[e0].dest == p ==> x in f.later[e0] && x !in f.ins[e0]
  {
    hide Graph.ListsDistinct, AvailEquation, AntEquation, Earliest;
    var p := g.edges[e].src;
    assert EdgeEquation(g, loc, f, e) && e in g.succs[p];
    assert g.Normal(p);
    forall e0 | 0 <= e0 < |g.edges| && g.edges[e0].dest == p ensures x in f.later[e0] && x !in f.ins[e0] {
      assert e0 in g.preds[p] && EdgeEquation(g, loc, f, e0);
    }
  }

  lemma NotCounted(g: Graph, loc: Local, q: Placement, x: nat, es: seq<nat>, b: nat)
    requires g.Valid() && |q.ins| == |g.edges| && |q.del| == |loc.antloc| == g.blocks
    requires forall i :: 0 <= i < |es| ==> es[i] < |g.edges|
    ensures (b < g.blocks && x !in loc.antloc[b] - q.del[b]) ==>
              Done(g, loc, q, x, es, b) == Count(g, loc, q, x, es)
    ensures Done(g, loc, q, x, es, b) >= Count(g, loc, q, x, es)
  {
  }

  // ---------- any other placement ----------

  /** Where the temporary of a safe placement holds the value, x is anticipated or has been
      computed before. */
  lemma {:induction false} SafeHeld(g: Graph, loc: Local, f: Solution, q: Placement, x: nat, es: seq<nat>, b: nat)
    requires g.Valid() && Analysed(g, loc, f) && x in loc.ones && Fits(g, loc, q, x) && Safe(g, loc, q, x)
    requires g.Walk(g.entry, es, b) && g.Normal(b) && Held(g, loc, q.ins, x, es)
    ensures x in f.antin[b] || ComputedOn(g, loc.avloc, f.kill, x, es)
    decreases |es|
  {
    hide Graph.ListsDistinct, EdgeEquation, AvailEquation, Problem.Fixpoint, Problem.Greatest, AvailProblem, AntProblem;
    var n := |es| - 1;
    var e := es[n];
    if x in q.ins[e] {
      AnticipatedExactly(g, loc.ones, loc.antloc, loc.transp, f.antin, x, b);
    } else {
      var p := g.edges[e].src;
      assert e in g.succs[p];
      LastOf(g, es[..n], p);
      assert g.Normal(p);
      SafeHeld(g, loc, f, q, x, es[..n], p);
      assert AntEquation(g, loc, f, p);
      assert x !in f.kill[p];
    }
  }

  lemma LastOf(g: Graph, es: seq<nat>, b: nat)
    requires g.Valid() && g.Walk(g.entry, es, b) && es != []
    ensures b != g.entry
  {
    hide Graph.ListsDistinct;
    assert es[|es| - 1] in g.preds[b];
  }

  /** Before the earliest place no safe placement can have the value ready on every path. */
  lemma NotReady(g: Graph, loc: Local, f: Solution, q: Placement, x: nat, e: nat) returns (way: seq<nat>)
    requires g.Valid() && Analysed(g, loc, f) && x in loc.ones && Fits(g, loc, q, x) && Safe(g, loc, q, x)
    requires e < |g.edges| && x in f.earliest[e]
    ensures g.Walk(g.entry, way, g.edges[e].src)
    ensures !(Passes(loc, x, g.edges[e].src) && Held(g, loc, q.ins, x, way))
  {
    hide Graph.ListsDistinct, Problem.Fixpoint, Problem.Greatest, AvailProblem, AntProblem;
    var p := g.edges[e].src;
    if p == g.entry {
      way := [];
    } else {
      assert e in g.succs[p] && g.Normal(p);
      assert EdgeEquation(g, loc, f, e) && AvailEquation(g, loc, f, p) && AntEquation(g, loc, f, p);
      if Passes(loc, x, p) {
        assert x !in f.avin[p] && x !in f.antin[p];
        MeetIsAvin(g, loc, f, x, p);
        way := PathWithout(g, loc.ones, loc.avloc, f.kill, f.avout, x, p);
        if Held(g, loc, q.ins, x, way) {
          SafeHeld(g, loc, f, q, x, way, p);
        }
      } else {
        way := WayTo(g, e);
      }
    }
  }

  lemma MeetIsAvin(g: Graph, loc: Local, f: Solution, x: nat, b: nat)
    requires g.Valid() && Analysed(g, loc, f) && g.Normal(b) && x !in f.avin[b] && x in loc.ones
    ensures x !in AvailProblem(g, loc.ones, loc.avloc, f.kill).Meet(f.avout, b)
  {
    hide Graph.ListsDistinct, EdgeEquation, AntEquation, Problem.Greatest;
    assert AvailEquation(g, loc, f, b);
    var p := AvailProblem(g, loc.ones, loc.avloc, f.kill);
    var k :| 0 <= k < |g.preds[b]| &&
             !(g.edges[g.preds[b][k]].src != g.entry && x in f.avout[g.edges[g.preds[b][k]].src]);
    assert p.srcs[b][k] == g.edges[g.preds[b][k]].src;
  }

  lemma {:induction false} HeldBack(g: Graph, loc: Local, ins: seq<Bits>, x: nat, way: seq<nat>, es: seq<nat>)
    requires |ins| == |g.edges| && es != [] && Held(g, loc, ins, x, way + es) && es[0] < |g.edges|
    requires forall i :: 0 <= i < |es| ==> es[i] < |g.edges| && x !in ins[es[i]]
    ensures Passes(loc, x, g.edges[es[0]].src) && Held(g, loc, ins, x, way)
    decreases |es|
  {
    var n := |es| - 1;
    assert (way + es)[..|way + es| - 1] == way + es[..n];
    if n == 0 {
      assert way + es[..n] == way;
    } else {
      HeldBack(g, loc, ins, x, way, es[..n]);
    }
  }

  lemma SuffixWalk(g: Graph, es: seq<nat>, b: nat, k: nat)
    requires g.Walk(g.entry, es, b) && k < |es|
    ensures es[k] < |g.edges| && g.Walk(g.edges[es[k]].src, es[k..], b)
    decreases |es|
  {
    var n := |es| - 1;
    if k == n {
      assert es[k..] == [es[n]];
      WalkStep(g, g.edges[es[n]].src, [], es[n]);
      assert [] + [es[n]] == es[k..];
    } else {
      SuffixWalk(g, es[..n], g.edges[es[n]].src, k);
      assert es[..n][k..] == es[k..n] && es[k..][..|es[k..]| - 1] == es[k..n];
    }
  }

  /** Between the earliest place and the first use every admissible placement evaluates x. */
  lemma SomeEvaluation(g: Graph, loc: Local, f: Solution, q: Placement, x: nat, es: seq<nat>, b: nat, k: nat)
    requires g.Valid() && Analysed(g, loc, f) && x in loc.ones && Admissible(g, loc, q, x)
    requires g.Walk(g.entry, es, b) && b < g.blocks && Opened(g, loc, f, x, es, k) && x in loc.antloc[b]
    ensures x !in q.del[b] || exists j :: k <= j < |es| && x in q.ins[es[j]]
  {
    hide *;
    AdmissibleFacts(g, loc, f, q, x);
    AdmissibleParts(g, loc, q, x);
    OpenedFacts(g, loc, f, x, es, k);
    if x in q.del[b] && forall j :: k <= j < |es| ==> x !in q.ins[es[j]] {
      var way := NotReady(g, loc, f, q, x, es[k]);
      SuffixWalk(g, es, b, k);
      var fs := es[k..];
      ReadyBefore(g, loc, q, x, way, fs, b);
    }
  }

  /** If nothing is inserted from there on, the value must have been ready at the start of fs. */
  lemma ReadyBefore(g: Graph, loc: Local, q: Placement, x: nat, way: seq<nat>, fs: seq<nat>, b: nat)
    requires Fits(g, loc, q, x) && Correct(g, loc, q, x) && b < g.blocks && |q.del| == g.blocks && x in q.del[b]
    requires fs != [] && fs[0] < |g.edges| && g.Walk(g.entry, way, g.edges[fs[0]].src)
    requires g.Walk(g.edges[fs[0]].src, fs, b) && |q.ins| == |g.edges|
    requires forall i :: 0 <= i < |fs| ==> fs[i] < |g.edges| && x !in q.ins[fs[i]]
    ensures Passes(loc, x, g.edges[fs[0]].src) && Held(g, loc, q.ins, x, way)
  {
    hide *;
    WalkConcat(g, g.entry, way, g.edges[fs[0]].src, fs, b);
    CorrectAt(g, loc, q, x, way + fs, b);
    HeldBack(g, loc, q.ins, x, way, fs);
  }

  lemma AdmissibleParts(g: Graph, loc: Local, q: Placement, x: nat)
    requires loc.Valid(g) && Admissible(g, loc, q, x)
    ensures Fits(g, loc, q, x) && Correct(g, loc, q, x) && |loc.transp| == g.blocks && Safe(g, loc, q, x)
    ensures |q.ins| == |g.edges| && |q.del| == g.blocks
  {
  }

  lemma CorrectAt(g: Graph, loc: Local, q: Placement, x: nat, es: seq<nat>, b: nat)
    requires Fits(g, loc, q, x) && Correct(g, loc, q, x) && b < |q.del| && b < g.blocks && x in q.del[b]
    requires g.Walk(g.entry, es, b)
    ensures |q.ins| == |g.edges| && Held(g, loc, q.ins, x, es)
  {
  }

  lemma {:induction false} CountGrows(g: Graph, loc: Local, q: Placement, x: nat, es: seq<nat>, b: nat, k: nat)
    requires g.Valid() && |q.ins| == |g.edges| && |q.del| == |loc.antloc| == g.blocks && b < g.blocks
    requires k < |es| && forall i :: 0 <= i < |es| ==> es[i] < |g.edges|
    ensures Done(g, loc, q, x, es, b) >= Done(g, loc, q, x, es[..k], g.edges[es[k]].src)
    ensures (x in loc.antloc[b] && x !in q.del[b]) || (exists j :: k <= j < |es| && x in q.ins[es[j]]) ==>
              Done(g, loc, q, x, es, b) > Done(g, loc, q, x, es[..k], g.edges[es[k]].src)
    decreases |es|
  {
    hide Graph.ListsDistinct, Count;
    var n := |es| - 1;
    CountStep(g, loc, q, x, es);
    if k < n {
      CountGrows(g, loc, q, x, es[..n], g.edges[es[n]].src, k);
      assert es[..n][..k] == es[..k];
      if j :| k <= j < |es| && x in q.ins[es[j]] && j < n {
        assert es[..n][j] == es[j];
      }
    }
  }

  // ---------- the comparison ----------

  /** The pass has inserted x for a use still to come, and is at most one ahead of where q was
      when the copy could be placed for the first time. */
  ghost predicate Ahead(g: Graph, loc: Local, f: Solution, q: Placement, x: nat, es: seq<nat>, b: nat, k: nat,
                        c: nat)
    requires g.Valid() && Solves(g, loc, f) && Fits(g, loc, q, x)
  {
    && Opened(g, loc, f, x, es, k)
    && Done(g, loc, Chosen(f), x, es, b) + c <= Done(g, loc, q, x, es[..k], g.edges[es[k]].src) + 1
  }

  ghost predicate Level(g: Graph, loc: Local, f: Solution, q: Placement, x: nat, es: seq<nat>, b: nat, c: nat)
    requires g.Valid() && Solves(g, loc, f) && Fits(g, loc, q, x)
  {
    (forall i :: 0 <= i < |es| ==> es[i] < |g.edges|) &&
    (Done(g, loc, Chosen(f), x, es, b) + c <= Done(g, loc, q, x, es, b) ||
     (Owed(g, f, x, b) && x !in loc.antloc[b] && exists k: nat :: Ahead(g, loc, f, q, x, es, b, k, c)))
  }

  /** The earliest place is never one where a copy is still to be used. */
  lemma NothingOwed(g: Graph, loc: Local, f: Solution, x: nat, e: nat, es: seq<nat>)
    requires g.Valid() && Solves(g, loc, f) && NoCriticalEdges(g) && e < |g.edges| && x in loc.ones
    requires g.Walk(g.entry, es, g.edges[e].src) && x in f.earliest[e]
    ensures !(Owed(g, f, x, g.edges[e].src) && x !in loc.antloc[g.edges[e].src])
  {
    DebtStep(g, loc, f, x, e, es);
    assert EdgeEquation(g, loc, f, e);
  }

  /** Where the pass has just evaluated x, q had done so since the earliest place. */
  lemma Caught(g: Graph, loc: Local, f: Solution, q: Placement, x: nat, es: seq<nat>, b: nat, k: nat, c: nat)
    requires g.Valid() && Analysed(g, loc, f) && x in loc.ones && Admissible(g, loc, q, x)
    requires g.Walk(g.entry, es, b) && b < g.blocks && x in loc.antloc[b] && Ahead(g, loc, f, q, x, es, b, k, c)
    ensures Done(g, loc, Chosen(f), x, es, b) + c <= Done(g, loc, q, x, es, b)
  {
    hide Analysed, Correct, Safe, Done;
    SomeEvaluation(g, loc, f, q, x, es, b, k);
    CountGrows(g, loc, q, x, es, b, k);
  }

  /** Once the pass is ahead it stays so until the use. */
  lemma AheadLevel(g: Graph, loc: Local, f: Solution, q: Placement, x: nat, es: seq<nat>, b: nat, k: nat, c: nat)
    requires g.Valid() && Analysed(g, loc, f) && x in loc.ones && Admissible(g, loc, q, x)
    requires g.Walk(g.entry, es, b) && b < g.blocks && Ahead(g, loc, f, q, x, es, b, k, c)
    requires x in loc.antloc[b] || Owed(g, f, x, b)
    ensures Level(g, loc, f, q, x, es, b, c)
  {
    hide Graph.ListsDistinct, Correct, Safe, Done, AvailEquation, AntEquation, EdgeEquation;
    hide Problem.Fixpoint, Problem.Greatest, AvailProblem, AntProblem;
    if x in loc.antloc[b] {
      Caught(g, loc, f, q, x, es, b, k, c);
    }
  }

  /** The pass inserts a copy on the last edge, or leaves the instruction where it is. */
  ghost predicate Evaluates(g: Graph, loc: Local, f: Solution, x: nat, es: seq<nat>, b: nat)
    requires g.Valid() && Solves(g, loc, f) && es != [] && b < g.blocks
  {
    es[|es| - 1] < |g.edges| && (x in f.ins[es[|es| - 1]] || (x in loc.antloc[b] && x !in f.del[b]))
  }

  lemma EvaluatesLater(g: Graph, loc: Local, f: Solution, x: nat, es: seq<nat>, b: nat)
    requires g.Valid() && Solves(g, loc, f) && g.Walk(g.entry, es, b) && es != [] && b < g.blocks
    requires Evaluates(g, loc, f, x, es, b)
    ensures var e := es[|es| - 1]; x in f.later[e] && (x in f.ins[e] ==> x !in loc.antloc[b] - f.del[b])
  {
    hide Graph.ListsDistinct;
    var e := es[|es| - 1];
    assert EdgeEquation(g, loc, f, e);
    assert e in g.preds[b];
    if x in loc.antloc[b] {
      assert g.Normal(b);
    }
  }

  lemma FreshLevel(g: Graph, loc: Local, f: Solution, q: Placement, x: nat, es: seq<nat>, b: nat, k: nat, c: nat)
    requires g.Valid() && Analysed(g, loc, f) && x in loc.ones && Admissible(g, loc, q, x)
    requires g.Walk(g.entry, es, b) && es != [] && b < g.blocks && Evaluates(g, loc, f, x, es, b)
    requires Opened(g, loc, f, x, es, k) && Level(g, loc, f, q, x, es[..k], g.edges[es[k]].src, c)
    requires Count(g, loc, Chosen(f), x, es) ==
             Done(g, loc, Chosen(f), x, es[..k], g.edges[es[k]].src) + (if x in f.ins[es[|es| - 1]] then 1 else 0)
    ensures Level(g, loc, f, q, x, es, b, c)
  {
    hide Graph.ListsDistinct, Correct, Safe, Count, AvailEquation, AntEquation, EdgeEquation;
    hide Problem.Fixpoint, Problem.Greatest, AvailProblem, AntProblem;
    var n := |es| - 1;
    EvaluatesLater(g, loc, f, x, es, b);
    PrefixWalk(g, es, b, k);
    NothingOwed(g, loc, f, x, es[k], es[..k]);
    if x in f.ins[es[n]] {
      DebtStep(g, loc, f, x, es[n], es[..n]);
    }
    assert Ahead(g, loc, f, q, x, es, b, k, c);
    AheadLevel(g, loc, f, q, x, es, b, k, c);
  }

  lemma PassingLevel(g: Graph, loc: Local, f: Solution, q: Placement, x: nat, es: seq<nat>, b: nat, c: nat)
    requires g.Valid() && Analysed(g, loc, f) && x in loc.ones && Admissible(g, loc, q, x)
    requires g.Walk(g.entry, es, b) && es != [] && b < g.blocks && !Evaluates(g, loc, f, x, es, b)
    requires forall i :: 0 <= i < |es| ==> es[i] < |g.edges|
    requires Level(g, loc, f, q, x, es[..|es| - 1], g.edges[es[|es| - 1]].src, c)
    ensures Level(g, loc, f, q, x, es, b, c)
  {
    hide Graph.Valid, Correct, Safe, Fits, Count, Done, Solves, Opened, Graph.Walk, Owed, Evaluates, NoCriticalEdges;
    hide Problem.Fixpoint, Problem.Greatest, AvailProblem, AntProblem, Graph.AllReachable;
    var n := |es| - 1;
    var p := g.edges[es[n]].src;
    AdmissibleFacts(g, loc, f, q, x);
    SolutionSizes(g, loc, f);
    NotEvaluated(g, loc, f, x, es, b);
    CountGrows(g, loc, q, x, es, b, n);
    if Done(g, loc, Chosen(f), x, es[..n], p) + c > Done(g, loc, q, x, es[..n], p) {
      StillOwed(g, loc, f, x, es, b);
      var k: nat :| Ahead(g, loc, f, q, x, es[..n], p, k, c);
      OpenedMore(g, loc, f, x, es, k);
      assert Ahead(g, loc, f, q, x, es, b, k, c);
      AheadLevel(g, loc, f, q, x, es, b, k, c);
    }
  }

  lemma NotEvaluated(g: Graph, loc: Local, f: Solution, x: nat, es: seq<nat>, b: nat)
    requires g.Valid() && Solves(g, loc, f) && es != [] && b < g.blocks && !Evaluates(g, loc, f, x, es, b)
    requires forall i :: 0 <= i < |es| ==> es[i] < |g.edges|
    ensures Done(g, loc, Chosen(f), x, es, b) == Done(g, loc, Chosen(f), x, es[..|es| - 1], g.edges[es[|es| - 1]].src)
  {
    hide Graph.ListsDistinct, Count, AvailEquation, AntEquation, EdgeEquation;
    CountStep(g, loc, Chosen(f), x, es);
  }

  lemma StillOwed(g: Graph, loc: Local, f: Solution, x: nat, es: seq<nat>, b: nat)
    requires g.Valid() && Analysed(g, loc, f) && x in loc.ones && g.Walk(g.entry, es, b) && es != []
    requires es[|es| - 1] < |g.edges|
    requires var p := g.edges[es[|es| - 1]].src; Owed(g, f, x, p) && x !in loc.antloc[p]
    ensures Owed(g, f, x, b)
  {
    hide Graph.ListsDistinct, AvailEquation, AntEquation, EdgeEquation;
    hide Problem.Fixpoint, Problem.Greatest, AvailProblem, AntProblem;
    DebtStep(g, loc, f, x, es[|es| - 1], es[..|es| - 1]);
  }

  lemma OpenedMore(g: Graph, loc: Local, f: Solution, x: nat, es: seq<nat>, k: nat)
    requires es != [] && Opened(g, loc, f, x, es[..|es| - 1], k) && es[|es| - 1] < |g.edges|
    requires g.edges[es[|es| - 1]].src < g.blocks && x !in loc.antloc[g.edges[es[|es| - 1]].src]
    ensures k < |es| - 1 && es[..|es| - 1][..k] == es[..k] && Opened(g, loc, f, x, es, k)
  {
  }

  /** From a use on, or from the start, a lead of q stays. */
  lemma {:induction false} StaysLevel(g: Graph, loc: Local, f: Solution, q: Placement, x: nat, es: seq<nat>, b: nat,
                                      c: nat, m: nat)
    requires g.Valid() && Analysed(g, loc, f) && x in loc.ones && Admissible(g, loc, q, x)
    requires g.Walk(g.entry, es, b) && b < g.blocks && m <= |es|
    requires var last := Last(g, es[..m]);
             (m == 0 || (last < g.blocks && x in loc.antloc[last])) && Level(g, loc, f, q, x, es[..m], last, c)
    ensures Level(g, loc, f, q, x, es, b, c)
    decreases |es|
  {
    hide Graph.ListsDistinct, Admissible, Level, Opened, Count, Done, Evaluates, Solves, Last;
    hide Problem.Fixpoint, Problem.Greatest, AvailProblem, AntProblem, NoCriticalEdges;
    AdmissibleFacts(g, loc, f, q, x);
    WalkEdges(g, g.entry, es, b);
    var n := |es| - 1;
    if |es| == m {
      assert es[..m] == es;
      LastIs(g, es, b);
    } else if Evaluates(g, loc, f, x, es, b) {
      EvaluatesLater(g, loc, f, x, es, b);
      var k := DelayedSince(g, loc, f, x, es, b);
      OpenedFacts(g, loc, f, x, es, k);
      PrefixWalk(g, es, b, k);
      NotOpenedOver(g, loc, f, x, es, b, k, m);
      assert es[..k][..m] == es[..m];
      StaysLevel(g, loc, f, q, x, es[..k], g.edges[es[k]].src, c, m);
      FreshLevel(g, loc, f, q, x, es, b, k, c);
    } else {
      assert es[..n][..m] == es[..m];
      StaysLevel(g, loc, f, q, x, es[..n], g.edges[es[n]].src, c, m);
      PassingLevel(g, loc, f, q, x, es, b, c);
    }
  }

  lemma LastIs(g: Graph, es: seq<nat>, b: nat)
    requires g.Walk(g.entry, es, b)
    ensures Last(g, es) == b
  {
  }

  /** What is delayed has not been delayed over a use. */
  lemma NotOpenedOver(g: Graph, loc: Local, f: Solution, x: nat, es: seq<nat>, b: nat, k: nat, m: nat)
    requires g.Valid() && g.Walk(g.entry, es, b) && Opened(g, loc, f, x, es, k) && m <= |es|
    requires m == 0 || (Last(g, es[..m]) < g.blocks && x in loc.antloc[Last(g, es[..m])])
    ensures m < |es| ==> m <= k
  {
    hide Graph.ListsDistinct, Last;
    if k < m < |es| {
      PrefixWalk(g, es, b, m);
      LastIs(g, es[..m], g.edges[es[m]].src);
    }
  }

  lemma AdmissibleFacts(g: Graph, loc: Local, f: Solution, q: Placement, x: nat)
    requires g.Valid() && Analysed(g, loc, f) && Admissible(g, loc, q, x)
    ensures Solves(g, loc, f) && Fits(g, loc, q, x) && loc.Valid(g)
    ensures |f.ins| == |f.later| == |g.edges| && |f.del| == |loc.antloc| == g.blocks
  {
  }

  lemma OpenedFacts(g: Graph, loc: Local, f: Solution, x: nat, es: seq<nat>, k: nat)
    requires Opened(g, loc, f, x, es, k)
    ensures k < |es| && es[k] < |g.edges| && g.edges[es[k]].src < g.blocks && |f.earliest| == |g.edges|
    ensures x in f.earliest[es[k]] && forall i :: 0 <= i < |es| ==> es[i] < |g.edges|
  {
  }

  lemma EmptyLevel(g: Graph, loc: Local, f: Solution, q: Placement, x: nat)
    requires g.Valid() && Solves(g, loc, f) && Fits(g, loc, q, x)
    ensures Level(g, loc, f, q, x, [], g.entry, 0)
  {
    EmptyCount(g, loc, Chosen(f), x);
    EmptyCount(g, loc, q, x);
  }

  /** Computational optimality: no correct and safe placement evaluates the expression less
      often than the pass does, on any path from the entry to the exit. `here` says which
      blocks hold the instruction. */
  lemma NoFewerEvaluations(g: Graph, loc: Local, f: Solution, q: Placement, x: nat, es: seq<nat>, here: seq<Bits>)
    requires g.Valid() && Analysed(g, loc, f) && x in loc.ones && Admissible(g, loc, q, x)
    requires g.Walk(g.entry, es, g.exit) && forall i :: 0 <= i < |es| ==> es[i] < |g.edges|
    requires |here| == g.blocks && forall b :: 0 <= b < g.blocks && x in loc.antloc[b] ==> x in here[b]
    ensures Insertions(f.ins, x, es) + Leaves(g, Kept(here, f.del), x, es) <=
            Insertions(q.ins, x, es) + Leaves(g, Kept(here, q.del), x, es)
  {
    AdmissibleFacts(g, loc, f, q, x);
    EmptyLevel(g, loc, f, q, x);
    assert es[..0] == [] && Last(g, []) == g.entry;
    StaysLevel(g, loc, f, q, x, es, g.exit, 0, 0);
    hide Graph.ListsDistinct, Correct, Safe, AvailEquation, AntEquation, EdgeEquation, Leaves, Insertions;
    hide Problem.Fixpoint, Problem.Greatest, AvailProblem, AntProblem, NoCriticalEdges;
    hide Kept;
    LeavesSplit(g, here, f.del, x, es);
    LeavesSplit(g, here, q.del, x, es);
    LeavesSplit(g, loc.antloc, f.del, x, es);
    LeavesSplit(g, loc.antloc, q.del, x, es);
  }

  lemma EmptyCount(g: Graph, loc: Local, q: Placement, x: nat)
    requires g.Valid() && loc.Valid(g) && |q.ins| == |g.edges| && |q.del| == |loc.antloc| == g.blocks
    ensures Count(g, loc, q, x, []) == 0 && Done(g, loc, q, x, [], g.entry) == 0
  {
  }
}
