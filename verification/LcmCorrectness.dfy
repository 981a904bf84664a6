/** What lazy code motion promises: along every path the moved expression has the
    value it had before, and no path through the function evaluates it more often. */
module LcmCorrectness {
  import opened Cfg
  import opened MustFlow
  import opened Lcm
  import opened LcmPlacement

  datatype Solution = Solution(
    kill: seq<Bits>, avin: seq<Bits>, avout: seq<Bits>, antin: seq<Bits>, antout: seq<Bits>,
    earliest: seq<Bits>, later: seq<Bits>, laterin: seq<Bits>, ins: seq<Bits>, del: seq<Bits>)

  /** The equations the passes leave satisfied. */
  ghost predicate Solves(g: Graph, loc: Local, f: Solution)
    requires g.Valid()
  {
    && loc.Valid(g)
    && |f.kill| == |f.avin| == |f.avout| == |f.antin| == |f.antout| == |f.del| == g.blocks
    && |f.earliest| == |f.later| == |f.ins| == |g.edges| && |f.laterin| == g.blocks + 1
    && (forall b :: 0 <= b < g.blocks ==> f.kill[b] == loc.ones - (loc.transp[b] + loc.avloc[b]))
    && (forall b: nat :: g.Normal(b) ==> AvailEquation(g, loc, f, b) && AntEquation(g, loc, f, b))
    && (forall e :: 0 <= e < |g.edges| ==> EdgeEquation(g, loc, f, e))
    && (forall b: nat :: g.Normal(b) ==> f.laterin[b] == EdgeMeet(loc.ones, f.later, g.preds[b]))
    && f.laterin[g.blocks] == EdgeMeet(loc.ones, f.later, g.preds[g.exit])
    && (forall b :: 0 <= b < g.blocks ==> f.del[b] == loc.antloc[b] - f.laterin[b])
  }

  ghost predicate AvailEquation(g: Graph, loc: Local, f: Solution, b: nat)
    requires g.Valid() && b < g.blocks
    requires |loc.avloc| == |f.kill| == |f.avin| == |f.avout| == g.blocks
  {
    && f.avout[b] == loc.avloc[b] + (f.avin[b] - f.kill[b])
    && forall x :: x in f.avin[b] <==> x in loc.ones && forall k :: 0 <= k < |g.preds[b]| ==>
         g.edges[g.preds[b][k]].src != g.entry && x in f.avout[g.edges[g.preds[b][k]].src]
  }

  ghost predicate AntEquation(g: Graph, loc: Local, f: Solution, b: nat)
    requires g.Valid() && b < g.blocks
    requires |loc.antloc| == |loc.transp| == |f.antin| == |f.antout| == g.blocks
  {
    && f.antin[b] == loc.antloc[b] + loc.transp[b] * f.antout[b]
    && forall x :: x in f.antout[b] <==> x in loc.ones && forall k :: 0 <= k < |g.succs[b]| ==>
         g.edges[g.succs[b][k]].dest != g.exit && x in f.antin[g.edges[g.succs[b][k]].dest]
  }

  ghost predicate EdgeEquation(g: Graph, loc: Local, f: Solution, e: nat)
    requires g.Valid() && e < |g.edges|
    requires |f.antin| == |f.antout| == |f.avout| == |f.kill| == |loc.antloc| == g.blocks
    requires |f.earliest| == |f.later| == |f.ins| == |g.edges| && |f.laterin| == g.blocks + 1
  {
    var edge := g.edges[e];
    && f.earliest[e] == Earliest(g, loc.ones, f.antin, f.antout, f.avout, f.kill, e)
    && f.later[e] == f.earliest[e] + (if edge.src == g.entry then {} else f.laterin[edge.src] - loc.antloc[edge.src])
    && f.ins[e] == f.later[e] - f.laterin[if edge.dest == g.exit then g.blocks else edge.dest]
  }

  // ---------- the value of the moved expression along a path ----------

  /** How one candidate instruction and the blocks around it behave. S is the state
      of the variables at block boundaries, V the values. `home` is the one block that
      holds the instruction, `at(s)` the value it computes when home is entered in
      state s, `val(s)` the value of its expression in state s, and `after(b, s)` the
      state in which block b is left. */
  datatype Semantics<!S(!new), !V(!new)> = Semantics(home: nat, at: S -> V, after: (nat, S) -> S, val: S -> V)
  {
    /** What the local properties of instruction x mean. */
    ghost predicate Respects(g: Graph, loc: Local, x: nat)
      requires loc.Valid(g)
    {
      && (forall b, s :: 0 <= b < g.blocks && x in loc.transp[b] ==> val(after(b, s)) == val(s))
      && (forall b, s :: 0 <= b < g.blocks && x in loc.antloc[b] ==> b == home && at(s) == val(s))
      && (forall b, s :: 0 <= b < g.blocks && x in loc.avloc[b] ==> b == home && val(after(b, s)) == at(s))
    }

    /** The state in which the last block of the walk is entered. */
    function StateAt(g: Graph, es: seq<nat>, s0: S): S {
      if es == [] then s0
      else
        var e := es[|es| - 1];
        if e < |g.edges| then after(g.edges[e].src, StateAt(g, es[..|es| - 1], s0)) else s0
    }

    /** The temporary when the last block is entered: an insertion on an edge stores
        the value of the expression at the end of the edge's source block. */
    function TempAt(g: Graph, ins: seq<Bits>, x: nat, es: seq<nat>, s0: S, t0: V): V
      requires |ins| == |g.edges|
    {
      if es == [] then t0
      else
        var e := es[|es| - 1];
        if e < |g.edges| && x in ins[e] then val(StateAt(g, es, s0))
        else TempAt(g, ins, x, es[..|es| - 1], s0, t0)
    }

    /** The values the instruction yields each time the walk comes to its home block,
        in the original function. */
    function OriginalTrace(g: Graph, es: seq<nat>, s0: S): seq<V> {
      (if es == [] then [] else OriginalTrace(g, es[..|es| - 1], s0))
      + (if Last(g, es) == home then [at(StateAt(g, es, s0))] else [])
    }

    /** The same after the pass: a deleted instruction reads the temporary. */
    function NewTrace(g: Graph, ins: seq<Bits>, del: seq<Bits>, x: nat, es: seq<nat>, s0: S, t0: V): seq<V>
      requires |ins| == |g.edges| && home < |del|
    {
      (if es == [] then [] else NewTrace(g, ins, del, x, es[..|es| - 1], s0, t0))
      + (if Last(g, es) != home then []
         else if x in del[home] then [TempAt(g, ins, x, es, s0, t0)]
         else [at(StateAt(g, es, s0))])
    }
  }

  /** The last block of a walk from the entry. */
  function Last(g: Graph, es: seq<nat>): nat {
    if es != [] && es[|es| - 1] < |g.edges| then g.edges[es[|es| - 1]].dest else g.entry
  }

  /** The places where the temporary must already hold the value: the expression is
      available, or it is needed and can no longer be delayed. */
  ghost predicate Settled(g: Graph, f: Solution, x: nat, b: nat)
    requires |f.avin| == |f.antin| == g.blocks && |f.laterin| == g.blocks + 1
  {
    g.Normal(b) && (x in f.avin[b] || (x in f.antin[b] && x !in f.laterin[b]))
  }

  /** The bit-level core: if the temporary must hold at the end of an edge without
      an insertion on it, then the source block is settled too, and it either leaves
      the value alone or is the home block and computes it last. */
  lemma SettledComesFrom(g: Graph, loc: Local, f: Solution, x: nat, e: nat)
    requires g.Valid() && Solves(g, loc, f) && e < |g.edges| && x in loc.ones
    requires Settled(g, f, x, g.edges[e].dest) && x !in f.ins[e]
    requires forall b :: 0 <= b < g.blocks && x in loc.avloc[b] ==> x in f.del[b]
    ensures Settled(g, f, x, g.edges[e].src)
    ensures var p := g.edges[e].src; x in loc.transp[p] || (x in loc.avloc[p] && x in loc.antloc[p])
  {
    hide Graph.ListsDistinct;
    var p, s := g.edges[e].src, g.edges[e].dest;
    assert e in g.preds[s] && e in g.succs[p];
    assert p != g.exit;
    assert EdgeEquation(g, loc, f, e) && AvailEquation(g, loc, f, s);
    if p == g.entry {
      assert false;
    } else {
      assert AvailEquation(g, loc, f, p) && AntEquation(g, loc, f, p);
      if x in f.avout[p] {
        if x in loc.avloc[p] {
          assert x in f.del[p];
        }
      } else {
        assert x !in f.later[e] && x !in f.earliest[e];
        assert x !in f.kill[p] && x in f.antout[p];
        assert x in loc.transp[p] && x !in loc.antloc[p] && x !in f.laterin[p];
      }
    }
  }

  lemma HomeOnly<S(!new), V(!new)>(g: Graph, loc: Local, m: Semantics<S, V>, x: nat, s: S)
    requires loc.Valid(g) && m.Respects(g, loc, x)
    ensures forall c :: 0 <= c < g.blocks && x in loc.avloc[c] ==> c == m.home
  {
    forall c | 0 <= c < g.blocks && x in loc.avloc[c] ensures c == m.home {
      assert m.val(m.after(c, s)) == m.at(s);
    }
  }

  lemma ValueKept<S(!new), V(!new)>(g: Graph, loc: Local, m: Semantics<S, V>, x: nat, b: nat, s: S)
    requires loc.Valid(g) && m.Respects(g, loc, x) && b < g.blocks
    requires x in loc.transp[b] || (x in loc.avloc[b] && x in loc.antloc[b])
    ensures m.val(m.after(b, s)) == m.val(s)
  {
  }

  /** While its instruction is deleted, the temporary holds the current value of the
      expression wherever it is settled, on every path. */
  lemma {:induction false} TemporaryCorrect<S(!new), V(!new)>(
      g: Graph, loc: Local, f: Solution, m: Semantics<S, V>, x: nat, es: seq<nat>, b: nat, s0: S, t0: V)
    requires g.Valid() && Solves(g, loc, f) && m.Respects(g, loc, x) && x in loc.ones
    requires m.home < g.blocks && x in f.del[m.home]
    requires g.Walk(g.entry, es, b) && Settled(g, f, x, b)
    ensures m.TempAt(g, f.ins, x, es, s0, t0) == m.val(m.StateAt(g, es, s0))
    decreases |es|
  {
    hide Graph.Valid, EdgeEquation, AvailEquation, AntEquation;
    if es != [] {
      var n := |es| - 1;
      var e := es[n];
      if x !in f.ins[e] {
        HomeOnly(g, loc, m, x, s0);
        SettledComesFrom(g, loc, f, x, e);
        TemporaryCorrect(g, loc, f, m, x, es[..n], g.edges[e].src, s0, t0);
        ValueKept(g, loc, m, x, g.edges[e].src, m.StateAt(g, es[..n], s0));
      }
    }
  }

  /** The pass preserves meaning: on every path from the entry, from every state, the
      instruction yields the same values before and after. */
  lemma {:induction false} PreservesMeaning<S(!new), V(!new)>(
      g: Graph, loc: Local, f: Solution, m: Semantics<S, V>, x: nat, es: seq<nat>, b: nat, s0: S, t0: V)
    requires g.Valid() && Solves(g, loc, f) && m.Respects(g, loc, x) && x in loc.ones
    requires m.home < g.blocks && g.Walk(g.entry, es, b)
    ensures m.NewTrace(g, f.ins, f.del, x, es, s0, t0) == m.OriginalTrace(g, es, s0)
    decreases |es|
  {
    if es != [] {
      PreservesMeaning(g, loc, f, m, x, es[..|es| - 1], g.edges[es[|es| - 1]].src, s0, t0);
    }
    if b == m.home && x in f.del[m.home] {
      DeletedIsSettled(g, loc, f, x, b);
      TemporaryCorrect(g, loc, f, m, x, es, b, s0, t0);
    }
  }

  lemma DeletedIsSettled(g: Graph, loc: Local, f: Solution, x: nat, b: nat)
    requires g.Valid() && Solves(g, loc, f) && b < g.blocks && x in f.del[b]
    ensures Settled(g, f, x, b) && x in loc.antloc[b]
  {
    assert g.Normal(b);
    assert AntEquation(g, loc, f, b);
  }

  // ---------- safety and number of evaluations ----------

  /** Delayed computations stay anticipated: nothing is moved to a place from which
      the expression is not needed on every way out. */
  lemma {:induction false} LaterIsAnticipated(g: Graph, loc: Local, f: Solution, x: nat, es: seq<nat>, e: nat)
    requires g.Valid() && Solves(g, loc, f) && e < |g.edges|
    requires g.Walk(g.entry, es, g.edges[e].src) && x in f.later[e]
    ensures g.edges[e].dest == g.exit || x in f.antin[g.edges[e].dest]
    ensures g.edges[e].dest == g.exit ==> g.edges[e].src == g.entry
    decreases |es|
  {
    hide Graph.ListsDistinct;
    var p := g.edges[e].src;
    assert EdgeEquation(g, loc, f, e);
    assert e in g.succs[p];
    if p != g.entry && x !in f.earliest[e] {
      assert es != [];
      var e0 := es[|es| - 1];
      assert p != g.exit by { assert g.succs[g.exit] == []; }
      assert e0 in g.preds[p];
      assert x in f.later[e0];
      LaterIsAnticipated(g, loc, f, x, es[..|es| - 1], e0);
      assert AntEquation(g, loc, f, p);
      assert x in f.antout[p];
    }
  }

  /** Every edge that leads to a block in which two edges meet starts in a block with
      one successor, and at most one edge enters the exit block. */
  ghost predicate NoCriticalEdges(g: Graph)
    requires g.Valid()
  {
    && (forall e :: 0 <= e < |g.edges| ==> |g.succs[g.edges[e].src]| < 2 || |g.preds[g.edges[e].dest]| < 2)
    && |g.preds[g.exit]| < 2
  }

  lemma SinglePred(g: Graph, ones: Bits, later: seq<Bits>, e: nat)
    requires g.Valid() && e < |g.edges| && |later| == |g.edges| && |g.preds[g.edges[e].dest]| < 2
    ensures EdgeMeet(ones, later, g.preds[g.edges[e].dest]) == ones * later[e]
  {
    hide Graph.ListsDistinct;
    assert e in g.preds[g.edges[e].dest];
    assert g.preds[g.edges[e].dest] == [e];
  }

  /** An insertion lands on an edge whose source has no other successor, so placing
      the copy before the source's closing jump puts it on that edge alone; and the
      expression is needed on every way out of the edge's target. */
  lemma InsertionIsExact(g: Graph, loc: Local, f: Solution, x: nat, e: nat, es: seq<nat>)
    requires g.Valid() && Solves(g, loc, f) && NoCriticalEdges(g) && e < |g.edges|
    requires x in f.ins[e] && x in loc.ones && g.Walk(g.entry, es, g.edges[e].src)
    ensures g.succs[g.edges[e].src] == [e]
    ensures g.Normal(g.edges[e].dest) && x in f.antin[g.edges[e].dest]
  {
    hide Graph.ListsDistinct;
    var p, s := g.edges[e].src, g.edges[e].dest;
    assert EdgeEquation(g, loc, f, e);
    assert e in g.succs[p] && e in g.preds[s];
    assert s != g.entry;
    if |g.preds[s]| < 2 {
      SinglePred(g, loc.ones, f.later, e);
      assert false;
    } else {
      assert |g.succs[p]| < 2;
      assert s != g.exit;
      LaterIsAnticipated(g, loc, f, x, es, e);
    }
  }

  /** Between an insertion and the deleted instruction that uses it nothing is
      inserted again. */
  ghost predicate Owed(g: Graph, f: Solution, x: nat, b: nat)
    requires |f.antin| == g.blocks && |f.laterin| == g.blocks + 1
  {
    g.Normal(b) && x in f.antin[b] && x !in f.laterin[b]
  }

  function Insertions(ins: seq<Bits>, x: nat, es: seq<nat>): nat
    requires forall i :: 0 <= i < |es| ==> es[i] < |ins|
  {
    if es == [] then 0
    else Insertions(ins, x, es[..|es| - 1]) + (if x in ins[es[|es| - 1]] then 1 else 0)
  }

  /** How often the walk leaves a block whose name is in `marked` for x. */
  function Leaves(g: Graph, marked: seq<Bits>, x: nat, es: seq<nat>): nat
    requires g.Valid() && |marked| == g.blocks && forall i :: 0 <= i < |es| ==> es[i] < |g.edges|
  {
    if es == [] then 0
    else Leaves(g, marked, x, es[..|es| - 1]) + (if x in marked[g.edges[es[|es| - 1]].src] then 1 else 0)
  }

  /** One edge: an insertion starts a debt, a deletion pays it, and a debt is neither
      doubled nor dropped in between. */
  lemma DebtStep(g: Graph, loc: Local, f: Solution, x: nat, e: nat, es: seq<nat>)
    requires g.Valid() && Solves(g, loc, f) && NoCriticalEdges(g) && e < |g.edges| && x in loc.ones
    requires g.Walk(g.entry, es, g.edges[e].src)
    ensures var p, s := g.edges[e].src, g.edges[e].dest;
            && (x in f.ins[e] ==> Owed(g, f, x, s))
            && (Owed(g, f, x, p) && x !in f.del[p] ==> x !in f.ins[e] && Owed(g, f, x, s))
  {
    hide Graph.ListsDistinct;
    var p, s := g.edges[e].src, g.edges[e].dest;
    assert EdgeEquation(g, loc, f, e);
    assert e in g.succs[p] && e in g.preds[s];
    if x in f.ins[e] {
      InsertionIsExact(g, loc, f, x, e, es);
    }
    if Owed(g, f, x, p) && x !in f.del[p] {
      assert AntEquation(g, loc, f, p) && AvailEquation(g, loc, f, p);
      assert x !in loc.antloc[p] && x in loc.transp[p] && x in f.antout[p];
      assert s != g.exit && x in f.antin[s];
      assert x !in f.kill[p] && x !in f.earliest[e] && x !in f.later[e];
      assert s != g.entry;
      assert x !in f.laterin[s];
    }
  }

  /** On every path from the entry, the insertions made so far are paid for by the
      deleted instructions passed so far, but for at most one that is still owed. */
  lemma {:induction false} DebtBounded(g: Graph, loc: Local, f: Solution, x: nat, es: seq<nat>, b: nat)
    requires g.Valid() && Solves(g, loc, f) && NoCriticalEdges(g) && x in loc.ones
    requires g.Walk(g.entry, es, b) && forall i :: 0 <= i < |es| ==> es[i] < |g.edges|
    ensures Insertions(f.ins, x, es) <= Leaves(g, f.del, x, es) + (if Owed(g, f, x, b) then 1 else 0)
    decreases |es|
  {
    if es != [] {
      var n := |es| - 1;
      DebtBounded(g, loc, f, x, es[..n], g.edges[es[n]].src);
      DebtStep(g, loc, f, x, es[n], es[..n]);
      if x in f.del[g.edges[es[n]].src] {
        DeletedIsSettled(g, loc, f, x, g.edges[es[n]].src);
      }
    }
  }

  /** No path through the function evaluates the expression more often than before:
      `here` says which block holds the instruction; before, it is evaluated whenever
      that block is passed, after, there and where it was inserted, unless deleted. */
  lemma NoMoreEvaluations(g: Graph, loc: Local, f: Solution, x: nat, es: seq<nat>, here: seq<Bits>)
    requires g.Valid() && Solves(g, loc, f) && NoCriticalEdges(g) && x in loc.ones
    requires g.Walk(g.entry, es, g.exit) && forall i :: 0 <= i < |es| ==> es[i] < |g.edges|
    requires |here| == g.blocks && forall b :: 0 <= b < g.blocks && x in loc.antloc[b] ==> x in here[b]
    ensures Insertions(f.ins, x, es) + Leaves(g, Kept(here, f.del), x, es) <= Leaves(g, here, x, es)
  {
    DebtBounded(g, loc, f, x, es, g.exit);
    LeavesSplit(g, here, f.del, x, es);
  }

  /** The blocks that still hold the instruction. */
  function Kept(here: seq<Bits>, del: seq<Bits>): seq<Bits>
    requires |here| == |del|
  {
    seq(|here|, b requires 0 <= b < |here| => here[b] - del[b])
  }

  lemma {:induction false} LeavesSplit(g: Graph, here: seq<Bits>, del: seq<Bits>, x: nat, es: seq<nat>)
    requires g.Valid() && |here| == |del| == g.blocks && forall i :: 0 <= i < |es| ==> es[i] < |g.edges|
    requires forall b :: 0 <= b < g.blocks && x in del[b] ==> x in here[b]
    ensures Leaves(g, here, x, es) == Leaves(g, Kept(here, del), x, es) + Leaves(g, del, x, es)
    decreases |es|
  {
    if es != [] {
      LeavesSplit(g, here, del, x, es[..|es| - 1]);
    }
  }

  // ---------- the whole pass ----------

  /** kill is everything neither transparent nor computed. */
  method ComputeKill(g: Graph, loc: Local) returns (kill: array<Bits>)
    requires g.Valid() && loc.Valid(g)
    ensures fresh(kill) && kill.Length == g.blocks
    ensures forall b :: 0 <= b < g.blocks ==> kill[b] == loc.ones - (loc.transp[b] + loc.avloc[b])
  {
    hide Graph.ListsDistinct;
    kill := new Bits[g.blocks](_ => {});
    var i := 0;
    while i < g.blocks
      invariant 0 <= i <= g.blocks
      invariant forall b :: 0 <= b < i ==> kill[b] == loc.ones - (loc.transp[b] + loc.avloc[b])
    {
      kill[i] := loc.ones - (loc.transp[i] + loc.avloc[i]);
      i := i + 1;
    }
  }

  /** The two problems over blocks. */
  method SolveBlocks(g: Graph, loc: Local)
    returns (kill: seq<Bits>, avin: seq<Bits>, avout: seq<Bits>, antin: seq<Bits>, antout: seq<Bits>)
    requires g.Valid() && g.AllReachable() && g.succs[g.entry] != [] && loc.Valid(g)
    ensures |kill| == |avin| == |avout| == |antin| == |antout| == g.blocks
    ensures forall b :: 0 <= b < g.blocks ==> kill[b] == loc.ones - (loc.transp[b] + loc.avloc[b])
    ensures var p := AvailProblem(g, loc.ones, loc.avloc, kill); p.Fixpoint(avout) && p.Greatest(avout)
    ensures forall b: nat :: g.Normal(b) ==> avin[b] == AvailProblem(g, loc.ones, loc.avloc, kill).Meet(avout, b)
    ensures var p := AntProblem(g, loc.ones, loc.antloc, loc.transp); p.Fixpoint(antin) && p.Greatest(antin)
    ensures forall b: nat :: g.Normal(b) ==> antout[b] == AntProblem(g, loc.ones, loc.antloc, loc.transp).Meet(antin, b)
    ensures forall b :: 0 <= b < g.blocks && !g.Normal(b) ==> antin[b] == loc.ones
  {
    hide Graph.Valid, Graph.AllReachable, Problem.Fixpoint, Problem.Greatest, AvailProblem, AntProblem, Problem.Meet;
    var kills := ComputeKill(g, loc);
    kill := kills[..];
    var out, into := new Bits[g.blocks](_ => {}), new Bits[g.blocks](_ => {});
    ComputeAvailable(g, loc.ones, loc.avloc, kill, out, into);
    avin, avout := into[..], out[..];
    out, into := new Bits[g.blocks](_ => {}), new Bits[g.blocks](_ => {});
    ComputeAntinout(g, loc.ones, loc.antloc, loc.transp, into, out);
    antin, antout := into[..], out[..];
  }

  /** The placement over edges, and the two sets the rewriting uses. */
  method SolveEdges(g: Graph, loc: Local, kill: seq<Bits>, avout: seq<Bits>, antin: seq<Bits>, antout: seq<Bits>)
    returns (earliest: seq<Bits>, later: seq<Bits>, laterin: seq<Bits>, ins: seq<Bits>, del: seq<Bits>)
    requires g.Valid() && g.AllReachable() && g.succs[g.entry] != [] && loc.Valid(g)
    requires |kill| == |avout| == |antin| == |antout| == g.blocks
    requires AntProblem(g, loc.ones, loc.antloc, loc.transp).Fixpoint(antin)
    requires forall b :: 0 <= b < g.blocks && !g.Normal(b) ==> antin[b] == loc.ones
    ensures |earliest| == |later| == |ins| == |g.edges| && |del| == g.blocks && |laterin| == g.blocks + 1
    ensures forall e :: 0 <= e < |g.edges| ==> earliest[e] == Earliest(g, loc.ones, antin, antout, avout, kill, e)
    ensures var p := LaterProblem(g, loc.ones, earliest, loc.antloc); p.Fixpoint(later) && p.Greatest(later)
    ensures forall b: nat :: g.Normal(b) ==> laterin[b] == EdgeMeet(loc.ones, later, g.preds[b])
    ensures laterin[g.blocks] == EdgeMeet(loc.ones, later, g.preds[g.exit])
    ensures forall b :: 0 <= b < g.blocks ==> del[b] == loc.antloc[b] - laterin[b]
    ensures forall e :: 0 <= e < |g.edges| ==>
              ins[e] == later[e] - laterin[if g.edges[e].dest == g.exit then g.blocks else g.edges[e].dest]
  {
    hide Graph.ListsDistinct, Graph.AllReachable, Problem.Fixpoint, Problem.Greatest, AntProblem, LaterProblem,
         Earliest, EdgeMeet;
    var vector := new Bits[|g.edges|](_ => {});
    ComputeEarliest(g, loc.ones, antin, antout, avout, kill, vector);
    earliest := vector[..];
    EarliestWithin(g, loc, antin, antout, avout, kill, earliest);
    vector := new Bits[|g.edges|](_ => {});
    var blocks := new Bits[g.blocks + 1](_ => {});
    ComputeLaterin(g, loc.ones, earliest, loc.antloc, vector, blocks);
    later, laterin := vector[..], blocks[..];
    vector := new Bits[|g.edges|](_ => {});
    blocks := new Bits[g.blocks](_ => {});
    ComputeInsertDelete(g, loc.antloc, later, laterin, vector, blocks);
    ins, del := vector[..], blocks[..];
  }

  /** Lazy_Code_Motion: the solvers and the placement steps run one after the other. */
  method LazyCodeMotion(g: Graph, loc: Local) returns (f: Solution)
    requires g.Valid() && g.AllReachable() && g.succs[g.entry] != [] && loc.Valid(g)
    ensures Solves(g, loc, f)
    ensures var p := AvailProblem(g, loc.ones, loc.avloc, f.kill); p.Fixpoint(f.avout) && p.Greatest(f.avout)
    ensures var p := AntProblem(g, loc.ones, loc.antloc, loc.transp); p.Fixpoint(f.antin) && p.Greatest(f.antin)
    ensures LaterProblem(g, loc.ones, f.earliest, loc.antloc).Greatest(f.later)
  {
    hide Graph.Valid, Graph.AllReachable, Problem.Fixpoint, Problem.Greatest, AvailProblem, AntProblem, LaterProblem;
    hide Solves, Earliest, EdgeMeet, Problem.Meet;
    var kill, avin, avout, antin, antout := SolveBlocks(g, loc);
    var earliest, later, laterin, ins, del := SolveEdges(g, loc, kill, avout, antin, antout);
    f := Solution(kill, avin, avout, antin, antout, earliest, later, laterin, ins, del);
    EquationsFromFixpoints(g, loc, f);
  }

  lemma EarliestWithin(g: Graph, loc: Local, antin: seq<Bits>, antout: seq<Bits>, avout: seq<Bits>, kill: seq<Bits>,
                       earliest: seq<Bits>)
    requires g.Valid() && loc.Valid(g) && |antin| == |antout| == |avout| == |kill| == g.blocks
    requires |earliest| == |g.edges|
    requires AntProblem(g, loc.ones, loc.antloc, loc.transp).Fixpoint(antin)
    requires forall b :: 0 <= b < g.blocks && !g.Normal(b) ==> antin[b] == loc.ones
    requires forall e :: 0 <= e < |g.edges| ==> earliest[e] == Earliest(g, loc.ones, antin, antout, avout, kill, e)
    ensures forall e :: 0 <= e < |g.edges| ==> earliest[e] <= loc.ones
  {
    hide Graph.ListsDistinct;
    var p := AntProblem(g, loc.ones, loc.antloc, loc.transp);
    forall b | 0 <= b < g.blocks ensures antin[b] <= loc.ones {
      if g.Normal(b) {
        assert antin[b] == p.Transfer(antin, b);
      }
    }
  }

  lemma EquationsFromFixpoints(g: Graph, loc: Local, f: Solution)
    requires g.Valid() && loc.Valid(g)
    requires |f.kill| == |f.avin| == |f.avout| == |f.antin| == |f.antout| == |f.del| == g.blocks
    requires |f.earliest| == |f.later| == |f.ins| == |g.edges| && |f.laterin| == g.blocks + 1
    requires forall b :: 0 <= b < g.blocks ==> f.kill[b] == loc.ones - (loc.transp[b] + loc.avloc[b])
    requires AvailProblem(g, loc.ones, loc.avloc, f.kill).Fixpoint(f.avout)
    requires forall b: nat :: g.Normal(b) ==> f.avin[b] == AvailProblem(g, loc.ones, loc.avloc, f.kill).Meet(f.avout, b)
    requires AntProblem(g, loc.ones, loc.antloc, loc.transp).Fixpoint(f.antin)
    requires forall b: nat :: g.Normal(b) ==>
               f.antout[b] == AntProblem(g, loc.ones, loc.antloc, loc.transp).Meet(f.antin, b)
    requires forall e :: 0 <= e < |g.edges| ==>
               f.earliest[e] == Earliest(g, loc.ones, f.antin, f.antout, f.avout, f.kill, e)
    requires LaterProblem(g, loc.ones, f.earliest, loc.antloc).Fixpoint(f.later)
    requires forall b: nat :: g.Normal(b) ==> f.laterin[b] == EdgeMeet(loc.ones, f.later, g.preds[b])
    requires f.laterin[g.blocks] == EdgeMeet(loc.ones, f.later, g.preds[g.exit])
    requires forall b :: 0 <= b < g.blocks ==> f.del[b] == loc.antloc[b] - f.laterin[b]
    requires forall e :: 0 <= e < |g.edges| ==>
               f.ins[e] == f.later[e] - f.laterin[if g.edges[e].dest == g.exit then g.blocks else g.edges[e].dest]
    ensures Solves(g, loc, f)
  {
    forall b: nat | g.Normal(b) ensures AvailEquation(g, loc, f, b) && AntEquation(g, loc, f, b) {
      AvailEquationHolds(g, loc, f, b);
      AntEquationHolds(g, loc, f, b);
    }
    forall e | 0 <= e < |g.edges| ensures EdgeEquation(g, loc, f, e) {
      EdgeEquationHolds(g, loc, f, e);
    }
  }

  lemma AvailEquationHolds(g: Graph, loc: Local, f: Solution, b: nat)
    requires g.Valid() && loc.Valid(g) && g.Normal(b)
    requires |f.kill| == |f.avin| == |f.avout| == g.blocks
    requires AvailProblem(g, loc.ones, loc.avloc, f.kill).Fixpoint(f.avout)
    requires f.avin[b] == AvailProblem(g, loc.ones, loc.avloc, f.kill).Meet(f.avout, b)
    ensures AvailEquation(g, loc, f, b)
  {
    hide Graph.ListsDistinct;
    var p := AvailProblem(g, loc.ones, loc.avloc, f.kill);
    assert f.avout[b] == loc.avloc[b] + (f.avin[b] - f.kill[b]) by {
      assert f.avout[b] == p.Transfer(f.avout, b);
      assert f.avin[b] <= loc.ones;
    }
    assert p.srcs[b] == PredBlocks(g, b) && p.ones == loc.ones && p.boundary[b] == EntrySucc(g, b);
    hide Problem.Fixpoint, Problem.Transfer, AvailProblem;
    if p.boundary[b] {
      var k :| 0 <= k < |g.preds[b]| && g.edges[g.preds[b][k]].src == g.entry;
      assert f.avin[b] == {};
    } else {
      assert forall k :: 0 <= k < |g.preds[b]| ==>
               g.edges[g.preds[b][k]].src != g.entry && p.srcs[b][k] == g.edges[g.preds[b][k]].src;
    }
  }

  lemma AntEquationHolds(g: Graph, loc: Local, f: Solution, b: nat)
    requires g.Valid() && loc.Valid(g) && g.Normal(b)
    requires |f.antin| == |f.antout| == g.blocks
    requires AntProblem(g, loc.ones, loc.antloc, loc.transp).Fixpoint(f.antin)
    requires f.antout[b] == AntProblem(g, loc.ones, loc.antloc, loc.transp).Meet(f.antin, b)
    ensures AntEquation(g, loc, f, b)
  {
    hide Graph.ListsDistinct;
    var p := AntProblem(g, loc.ones, loc.antloc, loc.transp);
    assert f.antin[b] == p.Transfer(f.antin, b);
    assert p.srcs[b] == SuccBlocks(g, b) && p.ones == loc.ones;
    if p.boundary[b] {
      var k :| 0 <= k < |g.succs[b]| && g.edges[g.succs[b][k]].dest == g.exit;
      assert f.antout[b] == {};
    } else {
      assert forall k :: 0 <= k < |g.succs[b]| ==>
               g.edges[g.succs[b][k]].dest != g.exit && p.srcs[b][k] == g.edges[g.succs[b][k]].dest;
    }
  }

  lemma LaterTransfer(g: Graph, loc: Local, f: Solution, e: nat)
    requires g.Valid() && loc.Valid(g) && e < |g.edges| && |f.earliest| == |f.later| == |g.edges|
    requires LaterProblem(g, loc.ones, f.earliest, loc.antloc).Fixpoint(f.later)
    ensures var src := g.edges[e].src;
            && src < g.blocks && (src == g.entry || g.Normal(src))
            && (forall k :: 0 <= k < |g.preds[src]| ==> g.preds[src][k] < |f.later|)
            && f.later[e] == f.earliest[e] +
                 if src == g.entry then {} else EdgeMeet(loc.ones, f.later, g.preds[src]) - loc.antloc[src]
  {
    hide Graph.ListsDistinct;
    var p := LaterProblem(g, loc.ones, f.earliest, loc.antloc);
    assert g.succs[g.exit] == [] && e in g.succs[g.edges[e].src];
    assert f.later[e] == p.Transfer(f.later, e);
  }

  lemma EdgeEquationHolds(g: Graph, loc: Local, f: Solution, e: nat)
    requires g.Valid() && loc.Valid(g) && e < |g.edges|
    requires |f.antin| == |f.antout| == |f.avout| == |f.kill| == g.blocks
    requires |f.earliest| == |f.later| == |f.ins| == |g.edges| && |f.laterin| == g.blocks + 1
    requires LaterProblem(g, loc.ones, f.earliest, loc.antloc).Fixpoint(f.later)
    requires forall b: nat :: g.Normal(b) ==> f.laterin[b] == EdgeMeet(loc.ones, f.later, g.preds[b])
    requires f.earliest[e] == Earliest(g, loc.ones, f.antin, f.antout, f.avout, f.kill, e)
    requires f.ins[e] == f.later[e] - f.laterin[if g.edges[e].dest == g.exit then g.blocks else g.edges[e].dest]
    ensures EdgeEquation(g, loc, f, e)
  {
    hide Graph.Valid, Earliest, EdgeMeet, LaterProblem, Problem.Fixpoint;
    LaterTransfer(g, loc, f, e);
  }
}
