/** The two-worklist solver of opt/sccp.c, changed in place. */
module SccpSolver {
  import opened Cfg
  import opened Words
  import opened Sccp

  // ---------- what the solver keeps ----------

  /** The fields of the solver as one value. */
  datatype State = State(info: seq<Info>, exec: Edges, visited: set<nat>, insts: set<Ref>, blocks: set<nat>)

  function InitInfo(p: Program, v: nat): Info {
    if v in p.consts then Info(Constant, Word(p.consts[v]))
    else if !p.Defined(v) then Info(Overdefined, Nothing)
    else Info(Undef, Nothing)
  }

  /** Nothing is above what its instruction gives; what no instruction defines is as at
      the start; a constant has a word. */
  ghost predicate Consistent(p: Program, info: seq<Info>, exec: Edges)
    requires p.Valid()
  {
    && |info| == p.vars
    && (forall v :: 0 <= v < |info| && info[v].level.Constant? ==> info[v].rec.Word?)
    && (forall v: nat :: v < |info| && !p.Defined(v) ==> info[v] == InitInfo(p, v))
    && (forall r :: r in p.Refs() && p.DefOf(r).Var? ==> Leq(Vals(info, p.DefOf(r).v), Expected(p, info, exec, r)))
  }

  /** An instruction whose result the lattice already holds, or a jump whose possible
      edges are executable. */
  ghost predicate Settled(p: Program, info: seq<Info>, exec: Edges, r: Ref)
    requires p.Valid() && r in p.Refs()
  {
    && (p.DefOf(r).Var? ==> Vals(info, p.DefOf(r).v) == Expected(p, info, exec, r))
    && (forall t :: t in JumpTargets(p, info, r) ==> (r.block, t) in exec)
  }

  /** The instruction reads a variable whose value has changed since the start. */
  ghost predicate Raised(p: Program, info: seq<Info>, r: Ref)
    requires r in p.Refs()
  {
    exists v :: v in p.Reads(r) && v < |info| && ValueOf(info[v]) != ValueOf(InitInfo(p, v))
  }

  /** The solver looks at an instruction when its block is visited, and, wherever it stands,
      when something it reads changes. */
  ghost predicate Active(p: Program, info: seq<Info>, blocks: set<nat>, r: Ref)
    requires r in p.Refs()
  {
    r.block in blocks || Raised(p, info, r)
  }

  /** Everything in the blocks of `scope`, and everything that reads a changed variable, is
      settled if no list holds it. */
  ghost predicate Covered(p: Program, st: State, scope: set<nat>, busy: set<Ref>)
    requires p.Valid()
  {
    && (forall r ::
           r in p.Refs() && Active(p, st.info, scope, r) && r !in st.insts && r !in busy
             && (r.PhiAt? ==> r.block !in st.blocks) ==>
          Settled(p, st.info, st.exec, r))
    && (forall s, t :: (s, t) in st.exec ==> t in scope || t in st.blocks)
    && (p.g.entry in scope || p.g.entry in st.blocks)
  }

  ghost predicate InRange(p: Program, st: State) {
    && st.insts <= p.Refs() && st.blocks <= Below(p.g.blocks) && st.visited <= Below(p.g.blocks)
    && st.exec <= Pairs(p.g.blocks)
  }

  function Pairs(n: nat): set<(nat, nat)> {
    set s, t | s in Below(n) && t in Below(n) :: (s, t)
  }

  ghost predicate Good(p: Program, st: State, scope: set<nat>, busy: set<Ref>) {
    && p.Valid() && InRange(p, st) && Consistent(p, st.info, st.exec) && Covered(p, st, scope, busy)
    && UnderAll(p, st, scope)
  }

  ghost predicate Started(p: Program, info: seq<Info>) {
    |info| == p.vars && forall v: nat :: v < |info| ==> Leq(ValueOf(InitInfo(p, v)), ValueOf(info[v]))
  }

  /** The values and the edges are at least what each instruction asks for that the solver
      looks at; they start from the entry block. */
  ghost predicate IsSolution(p: Program, q: State) {
    && p.Valid() && Started(p, q.info) && p.g.entry in q.visited
    && (forall s, t :: (s, t) in q.exec ==> t in q.visited)
    && forall r :: r in p.Refs() && Active(p, q.info, q.visited, r) ==> Satisfied(p, q, r)
  }

  ghost predicate Satisfied(p: Program, q: State, r: Ref)
    requires p.Valid() && r in p.Refs()
  {
    && (p.DefOf(r).Var? ==> Leq(Expected(p, q.info, q.exec, r), Vals(q.info, p.DefOf(r).v)))
    && (forall t :: t in JumpTargets(p, q.info, r) ==> (r.block, t) in q.exec)
  }

  ghost predicate Under(st: State, scope: set<nat>, q: State) {
    Higher(st.info, q.info) && st.exec <= q.exec && scope <= q.visited && st.blocks <= q.visited
  }

  /** Nothing is claimed yet that some solution does without. */
  ghost predicate UnderAll(p: Program, st: State, scope: set<nat>) {
    && Started(p, st.info) && (forall r :: r in st.insts ==> r in p.Refs() && Raised(p, st.info, r))
    && forall q: State :: IsSolution(p, q) ==> Under(st, scope, q)
  }

  /** The effect of sccp_instruction on a defining instruction. */
  ghost predicate Evaluated(p: Program, st: State, st': State, r: Ref)
    requires p.Valid() && r in p.Refs() && p.DefOf(r).Var? && p.DefOf(r).v < |st.info|
  {
    var d := p.DefOf(r).v;
    && |st'.info| == |st.info| && (forall v: nat :: v < |st.info| && v != d ==> st'.info[v] == st.info[v])
    && ValueOf(st'.info[d]) == Expected(p, st.info, st.exec, r)
    && (st'.info[d].level.Constant? ==> st'.info[d].rec.Word?)
    && st'.exec == st.exec && st'.visited == st.visited && st'.blocks == st.blocks
    && st'.insts == (if ValueOf(st'.info[d]) == ValueOf(st.info[d]) then st.insts else st.insts + p.UsesOf(d))
    && (ValueOf(st'.info[d]) == ValueOf(st.info[d]) ==> st'.info == st.info)
  }

  /** ... and on a jump. */
  ghost predicate Jumped(p: Program, st: State, st': State, r: Ref)
    requires r in p.Refs()
  {
    && st'.info == st.info && st'.visited == st.visited && st'.insts == st.insts
    && (forall s, t :: (s, t) in st'.exec <==> (s, t) in st.exec || (s == r.block && t in JumpTargets(p, st.info, r)))
    && (forall t :: t in st'.blocks <==>
           t in st.blocks || (t in JumpTargets(p, st.info, r) && (r.block, t) !in st.exec))
  }

  /** What is left to happen: levels to climb, edges to find. */
  function Climb(info: seq<Info>): nat {
    if info == [] then 0
    else
      var i := info[|info| - 1];
      Climb(info[..|info| - 1]) + (if i.level.Undef? then 2 else if i.level.Constant? then 1 else 0)
  }

  lemma {:induction false} ClimbDown(info: seq<Info>, info': seq<Info>)
    requires Higher(info, info')
    requires forall v :: 0 <= v < |info| ==>
               (info[v].level.Constant? ==> info[v].rec.Word?) && (info'[v].level.Constant? ==> info'[v].rec.Word?)
    ensures Climb(info') <= Climb(info)
    ensures (exists v :: 0 <= v < |info| && ValueOf(info[v]) != ValueOf(info'[v])) ==> Climb(info') < Climb(info)
    decreases |info|
  {
    if info != [] {
      var n := |info| - 1;
      ClimbDown(info[..n], info'[..n]);
      assert forall v :: 0 <= v < n ==> info[..n][v] == info[v] && info'[..n][v] == info'[v];
    }
  }

  function Left(p: Program, st: State): nat {
    Climb(st.info) + |Pairs(p.g.blocks) - st.exec|
  }

  // ---------- one instruction keeps it ----------

  lemma EvaluatedClimbs(p: Program, st: State, st': State, r: Ref)
    requires p.Valid() && Consistent(p, st.info, st.exec) && r in p.Refs() && p.DefOf(r).Var?
    requires p.DefOf(r).v < |st.info| && Evaluated(p, st, st', r)
    ensures Higher(st.info, st'.info) && Left(p, st') <= Left(p, st)
    ensures (st'.info != st.info ==> Left(p, st') < Left(p, st))
  {
    hide Graph.Valid, Expected;
    var d := p.DefOf(r).v;
    assert Leq(Vals(st.info, d), Expected(p, st.info, st.exec, r));
    ClimbDown(st.info, st'.info);
  }

  lemma EvaluatedConsistent(p: Program, st: State, st': State, r: Ref)
    requires p.Valid() && Consistent(p, st.info, st.exec) && r in p.Refs() && p.DefOf(r).Var?
    requires p.DefOf(r).v < |st.info| && Evaluated(p, st, st', r)
    ensures Consistent(p, st'.info, st'.exec)
  {
    hide Graph.Valid, Expected, Program.RefOk;
    EvaluatedClimbs(p, st, st', r);
    var d := p.DefOf(r).v;
    forall q | q in p.Refs() && p.DefOf(q).Var?
      ensures Leq(Vals(st'.info, p.DefOf(q).v), Expected(p, st'.info, st'.exec, q))
    {
      ExpectedMonotone(p, st.info, st'.info, st.exec, st'.exec, q);
      if p.DefOf(q).v == d {
        assert q == r;
      }
    }
    forall v: nat | v < |st'.info| && !p.Defined(v) ensures st'.info[v] == InitInfo(p, v) {
      assert v != d;
    }
  }

  /** Values read elsewhere have not changed. */
  lemma ReadsKept(p: Program, st: State, st': State, r: Ref, q: Ref)
    requires p.Valid() && r in p.Refs() && p.DefOf(r).Var? && p.DefOf(r).v < |st.info| && Evaluated(p, st, st', r)
    requires q in p.Refs()
    requires q !in st'.insts
    ensures q in st.insts || forall v :: v in p.Reads(q) ==> Vals(st.info, v) == Vals(st'.info, v)
  {
    hide Graph.Valid, Expected, Program.RefOk;
  }

  /** What has changed stays changed. */
  lemma RaisedStays(p: Program, info: seq<Info>, info': seq<Info>, r: Ref)
    requires r in p.Refs() && Started(p, info) && Higher(info, info') && Raised(p, info, r)
    ensures Raised(p, info', r)
  {
    var v :| v in p.Reads(r) && v < |info| && ValueOf(info[v]) != ValueOf(InitInfo(p, v));
    assert Leq(ValueOf(InitInfo(p, v)), ValueOf(info[v])) && Leq(ValueOf(info[v]), ValueOf(info'[v]));
  }

  lemma StartedStays(p: Program, info: seq<Info>, info': seq<Info>)
    requires Started(p, info) && Higher(info, info')
    ensures Started(p, info')
  {
    forall v: nat | v < |info'| ensures Leq(ValueOf(InitInfo(p, v)), ValueOf(info'[v])) {
      assert Leq(ValueOf(info[v]), ValueOf(info'[v]));
    }
  }

  /** A solution satisfies what the solver looks at. */
  lemma ActiveThere(p: Program, st: State, scope: set<nat>, q: State, r: Ref)
    requires UnderAll(p, st, scope) && IsSolution(p, q) && r in p.Refs() && Active(p, st.info, scope, r)
    ensures Satisfied(p, q, r) && Under(st, scope, q)
  {
    hide Satisfied, Higher, Started;
    assert Under(st, scope, q);
    UnderFacts(st, scope, q);
    if Raised(p, st.info, r) {
      RaisedStays(p, st.info, q.info, r);
    }
  }

  lemma UnderFacts(st: State, scope: set<nat>, q: State)
    requires Under(st, scope, q)
    ensures Higher(st.info, q.info) && st.exec <= q.exec && scope <= q.visited && st.blocks <= q.visited
  {
  }

  lemma EvaluatedUnder(p: Program, st: State, st': State, scope: set<nat>, r: Ref)
    requires p.Valid() && UnderAll(p, st, scope) && r in p.Refs() && p.DefOf(r).Var? && p.DefOf(r).v < |st.info|
    requires Active(p, st.info, scope, r) && Evaluated(p, st, st', r) && Higher(st.info, st'.info)
    ensures UnderAll(p, st', scope)
  {
    hide Expected, IsSolution, Active, Program.Valid, Raised, Started, Higher;
    var d := p.DefOf(r).v;
    StartedStays(p, st.info, st'.info);
    forall i | i in st'.insts ensures i in p.Refs() && Raised(p, st'.info, i) {
      if i in st.insts {
        RaisedStays(p, st.info, st'.info, i);
      } else {
        ChangedRaises(p, st.info, st'.info, d, i);
      }
    }
    forall q: State | IsSolution(p, q) ensures Under(st', scope, q) {
      ActiveThere(p, st, scope, q, r);
      UnderFacts(st, scope, q);
      ExpectedMonotone(p, st.info, q.info, st.exec, q.exec, r);
      OneHigher(st.info, st'.info, q.info, d, Expected(p, st.info, st.exec, r), Expected(p, q.info, q.exec, r));
    }
  }

  lemma ChangedRaises(p: Program, info: seq<Info>, info': seq<Info>, d: nat, i: Ref)
    requires Started(p, info) && Higher(info, info') && d < |info| && i in p.UsesOf(d)
    requires ValueOf(info'[d]) != ValueOf(info[d])
    ensures i in p.Refs() && Raised(p, info', i)
  {
    assert Leq(ValueOf(InitInfo(p, d)), ValueOf(info[d])) && Leq(ValueOf(info[d]), ValueOf(info'[d]));
    assert d in p.Reads(i);
  }

  lemma OneHigher(info: seq<Info>, info': seq<Info>, above: seq<Info>, d: nat, x: Value, y: Value)
    requires Higher(info, above) && d < |info| == |info'| && forall v: nat :: v < |info| && v != d ==>
               info'[v] == info[v]
    requires ValueOf(info'[d]) == x && Leq(x, y) && Leq(y, Vals(above, d))
    ensures Higher(info', above)
  {
  }

  lemma EvaluatedKeeps(p: Program, st: State, st': State, scope: set<nat>, busy: set<Ref>, r: Ref)
    requires Good(p, st, scope, busy) && r in p.Refs() && p.DefOf(r).Var? && p.DefOf(r).v < |st.info|
    requires Evaluated(p, st, st', r) && Active(p, st.info, scope, r)
    ensures Good(p, st', scope, busy - {r}) && Higher(st.info, st'.info)
    ensures Left(p, st') <= Left(p, st) && (Left(p, st') == Left(p, st) ==> st' == st)
  {
    hide Graph.Valid, Expected, Program.Valid, Left, Program.UsesOf, UnderAll, Raised;
    EvaluatedClimbs(p, st, st', r);
    EvaluatedConsistent(p, st, st', r);
    EvaluatedUnder(p, st, st', scope, r);
    UsesInRange(p, p.DefOf(r).v);
    forall q | q in p.Refs() && Active(p, st'.info, scope, q) && q !in st'.insts && q !in busy - {r}
      && (q.PhiAt? ==> q.block !in st'.blocks)
      ensures Settled(p, st'.info, st'.exec, q)
    {
      ReadsKept(p, st, st', r, q);
      if Raised(p, st'.info, q) {
        RaisedBefore(p, st.info, st'.info, q);
      }
      TargetsDepend(p, st.info, st'.info, q);
      if p.DefOf(q).Var? {
        ExpectedDepends(p, st.info, st'.info, st.exec, st'.exec, q);
        DefsDiffer(p, q, r);
      } else {
        assert q != r;
      }
      if q == r {
        NoTargets(p, st'.info, r);
      } else {
        assert Settled(p, st.info, st.exec, q);
      }
    }
  }

  lemma RaisedBefore(p: Program, info: seq<Info>, info': seq<Info>, q: Ref)
    requires q in p.Refs() && |info| == |info'| && forall v :: v in p.Reads(q) ==> Vals(info, v) == Vals(info', v)
    requires Raised(p, info', q)
    ensures Raised(p, info, q)
  {
    var v :| v in p.Reads(q) && v < |info'| && ValueOf(info'[v]) != ValueOf(InitInfo(p, v));
    assert Vals(info, v) == Vals(info', v);
  }

  lemma NoTargets(p: Program, info: seq<Info>, r: Ref)
    requires r in p.Refs() && p.DefOf(r).Var?
    ensures JumpTargets(p, info, r) == {}
  {
  }

  lemma DefsDiffer(p: Program, q: Ref, r: Ref)
    requires p.Valid() && q in p.Refs() && r in p.Refs() && p.DefOf(q).Var? && p.DefOf(r).Var?
    ensures q != r ==> p.DefOf(q).v != p.DefOf(r).v
  {
    hide Graph.Valid;
  }

  lemma UsesInRange(p: Program, v: nat)
    ensures p.UsesOf(v) <= p.Refs()
  {
  }

  lemma JumpedUnder(p: Program, st: State, st': State, scope: set<nat>, r: Ref)
    requires p.Valid() && UnderAll(p, st, scope) && r in p.Refs() && Jumped(p, st, st', r)
    requires Active(p, st.info, scope, r)
    ensures UnderAll(p, st', scope)
  {
    hide Expected, Active, Program.Valid, Raised, Started, Higher, JumpTargets;
    forall q: State | IsSolution(p, q) ensures Under(st', scope, q) {
      ActiveThere(p, st, scope, q, r);
      UnderFacts(st, scope, q);
      TargetsMonotone(p, st.info, q.info, r);
      forall e | e in st'.exec ensures e in q.exec { assert e == (e.0, e.1); }
    }
  }

  /** More is known to be possible when the values are higher. */
  lemma TargetsMonotone(p: Program, info: seq<Info>, info': seq<Info>, r: Ref)
    requires r in p.Refs() && Higher(info, info')
    ensures JumpTargets(p, info, r) <= JumpTargets(p, info', r)
  {
  }

  lemma JumpedKeeps(p: Program, st: State, st': State, scope: set<nat>, busy: set<Ref>, r: Ref)
    requires Good(p, st, scope, busy) && r in p.Refs() && p.DefOf(r).NoVar? && Jumped(p, st, st', r)
    requires Active(p, st.info, scope, r)
    ensures Good(p, st', scope, busy - {r})
    ensures Left(p, st') <= Left(p, st) && (Left(p, st') == Left(p, st) ==> st' == st)
  {
    hide Graph.Valid, Expected, Program.Valid, Climb, UnderAll, Raised;
    RefShape(p, r);
    TargetsInRange(p, st.info, r);
    JumpedUnder(p, st, st', scope, r);
    forall s, t | (s, t) in st'.exec ensures (s, t) in Pairs(p.g.blocks) {
      if (s, t) in st.exec {
      } else {
        assert s in Below(p.g.blocks) && t in Below(p.g.blocks);
      }
    }
    assert st.exec <= st'.exec by {
      forall e | e in st.exec ensures e in st'.exec { assert e == (e.0, e.1); }
    }
    assert st'.exec <= Pairs(p.g.blocks) by {
      forall e | e in st'.exec ensures e in Pairs(p.g.blocks) { assert e == (e.0, e.1); }
    }
    forall q | q in p.Refs() && p.DefOf(q).Var?
      ensures Leq(Vals(st'.info, p.DefOf(q).v), Expected(p, st'.info, st'.exec, q))
    {
      ExpectedMonotone(p, st.info, st'.info, st.exec, st'.exec, q);
    }
    forall q | q in p.Refs() && Active(p, st'.info, scope, q) && q !in st'.insts && q !in busy - {r}
      && (q.PhiAt? ==> q.block !in st'.blocks)
      ensures Settled(p, st'.info, st'.exec, q)
    {
      if q != r {
        assert Settled(p, st.info, st.exec, q);
        if p.DefOf(q).Var? {
          ExpectedDepends(p, st.info, st'.info, st.exec, st'.exec, q);
        }
      }
    }
    assert Pairs(p.g.blocks) - st'.exec <= Pairs(p.g.blocks) - st.exec;
    EdgesLeft(Pairs(p.g.blocks), st.exec, st'.exec);
    if st'.exec == st.exec {
      assert st'.blocks == st.blocks;
    }
  }

  lemma EdgesLeft(all: set<(nat, nat)>, a: set<(nat, nat)>, b: set<(nat, nat)>)
    requires a <= b <= all
    ensures |all - b| <= |all - a| && (|all - b| == |all - a| ==> a == b)
  {
    assert all - a == (all - b) + (b - a);
    assert |all - a| == |all - b| + |b - a|;
    if |b - a| == 0 {
      assert b - a == {};
      assert a == b;
    }
  }

  lemma TargetsInRange(p: Program, info: seq<Info>, r: Ref)
    requires p.Valid() && r in p.Refs()
    ensures JumpTargets(p, info, r) <= Below(p.g.blocks)
  {
    hide Graph.Valid;
    RefShape(p, r);
  }

  // ---------- the rules compute what is expected ----------

  ghost predicate Meets(old_: Info, new_: Info, v: Value) {
    && ValueOf(new_) == v && (new_.level.Constant? ==> new_.rec.Word?)
    && (new_ == old_ <==> ValueOf(new_) == ValueOf(old_))
  }

  ghost predicate Sane(i: Info) {
    i.level.Constant? ==> i.rec.Word?
  }

  lemma MoveMeets(dst: Info, src: Info)
    requires Sane(dst) && Sane(src) && Leq(ValueOf(dst), ValueOf(src))
    ensures Meets(dst, MoveRule(dst, src), ValueOf(src))
  {
  }

  lemma BinMeets(op: BinOp, dst: Info, a: Info, b: Info)
    requires Sane(dst) && Sane(a) && Sane(b) && Leq(ValueOf(dst), BinValue(op, ValueOf(a), ValueOf(b)))
    ensures Meets(dst, BinRule(op, dst, a, b), BinValue(op, ValueOf(a), ValueOf(b)))
  {
    hide Apply;
  }

  lemma UnMeets(op: UnOp, dst: Info, a: Info)
    requires Sane(dst) && Sane(a) && Leq(ValueOf(dst), UnValue(op, ValueOf(a)))
    ensures Meets(dst, UnRule(op, dst, a), UnValue(op, ValueOf(a)))
  {
    hide ApplyUn;
  }

  lemma RefFacts(p: Program, info: seq<Info>, exec: Edges, r: Ref)
    requires p.Valid() && Consistent(p, info, exec) && r in p.Refs()
    ensures |info| == p.vars && forall v :: v in p.Reads(r) ==> v < p.vars && Sane(info[v])
    ensures p.DefOf(r).Var? ==>
              p.DefOf(r).v < p.vars && Sane(info[p.DefOf(r).v])
                && Leq(ValueOf(info[p.DefOf(r).v]), Expected(p, info, exec, r))
    ensures r.PhiAt? ==> r.block < |p.g.preds| && |p.code[r.block].phis[r.index].args| == |p.g.preds[r.block]|
                         && forall j :: 0 <= j < |p.g.preds[r.block]| ==> p.g.preds[r.block][j] < |p.g.edges|
  {
    hide Graph.Valid, Expected;
    RefShape(p, r);
  }

  /** The four passes over the incoming edges of a phi, against the join. */
  lemma PhiMeets(g: Graph, info: seq<Info>, exec: Edges, b: nat, args: seq<nat>, dst: Info, any: bool, over: bool,
                 last: Recorded, differ: bool, new_: Info)
    requires b < |g.preds| && |g.preds[b]| == |args| && forall j :: 0 <= j < |args| ==> g.preds[b][j] < |g.edges|
    requires (forall k :: 0 <= k < |args| ==> args[k] < |info| && Sane(info[args[k]])) && Sane(dst)
    requires Leq(ValueOf(dst), PhiValue(g, info, exec, b, args, |args|))
    requires any <==> exists j :: 0 <= j < |args| && Feasible(g, exec, b, j) && !info[args[j]].level.Undef?
    requires over <==> exists j :: 0 <= j < |args| && Feasible(g, exec, b, j) && info[args[j]].level.Overdefined?
    requires any && !over ==> exists j ::
               0 <= j < |args| && Feasible(g, exec, b, j) && info[args[j]] == Info(Constant, last)
    requires differ <==> exists j ::
               0 <= j < |args| && Feasible(g, exec, b, j) && info[args[j]].level.Constant? && info[args[j]].rec != last
    requires new_ == if !any then dst
                     else if over || differ then (if dst.level.Overdefined? then dst else dst.(level := Overdefined))
                     else if dst.level.Undef? then Info(Constant, last) else dst
    ensures Meets(dst, new_, PhiValue(g, info, exec, b, args, |args|))
  {
    PhiFacts(g, info, exec, b, args, |args|);
    var v := PhiValue(g, info, exec, b, args, |args|);
    if !any {
      assert forall j :: 0 <= j < |args| && Feasible(g, exec, b, j) ==> Vals(info, args[j]).Bottom?;
      assert v.Bottom?;
    } else if over {
      var j :| 0 <= j < |args| && Feasible(g, exec, b, j) && info[args[j]].level.Overdefined?;
      assert Leq(Vals(info, args[j]), v);
    } else {
      var j :| 0 <= j < |args| && Feasible(g, exec, b, j) && info[args[j]] == Info(Constant, last);
      assert Leq(Vals(info, args[j]), v);
      if differ {
        var i :| 0 <= i < |args| && Feasible(g, exec, b, i) && info[args[i]].level.Constant?
          && info[args[i]].rec != last;
        assert Leq(Vals(info, args[i]), v);
      } else {
        assert v == Known(last.w);
      }
    }
  }

  // ---------- why one definition is asked for ----------

  function Line(): Graph {
    Graph(3, [Edge(0, 1), Edge(1, 2)], [[0], [1], []], [[], [0], [1]], 0, 2)
  }

  /** A block that defines variable 0 by some instruction and then by a move of the constant 2. */
  function TwoDefinitions(first: Instr): Program {
    Program(Line(), [Block([], [Goto(1)]), Block([], [first, Move(0, 2), Goto(2)]), Block([], [])], 3,
      map[1 := 1, 2 := 2])
  }

  lemma LineDistinct()
    ensures Line().ListsDistinct()
  {
  }

  lemma LineValid()
    ensures Line().Valid()
  {
    LineDistinct();
    hide Graph.ListsDistinct;
    var g := Line();
    assert g.preds[0] == [] && g.succs[2] == [];
    assert 0 in g.succs[0] && 0 in g.preds[1] && 1 in g.succs[1] && 1 in g.preds[2] by {
      assert g.succs[0][0] == 0 && g.preds[1][0] == 0 && g.succs[1][0] == 1 && g.preds[2][0] == 1;
    }
  }

  lemma TwoDefinitionsRefs(first: Instr, r: Ref)
    requires first == Move(0, 1) || first == Unknown(0)
    ensures r in TwoDefinitions(first).Refs() <==>
            r in {InstAt(0, 0), InstAt(1, 0), InstAt(1, 1), InstAt(1, 2)}
  {
    hide Line;
    var p := TwoDefinitions(first);
    var code := p.code;
    assert |code| == 3 && |code[0].phis| == |code[1].phis| == |code[2].phis| == 0;
    assert |code[0].body| == 1 && |code[1].body| == 3 && |code[2].body| == 0;
    HasRef(p, 0, 0);
    HasRef(p, 1, 0);
    HasRef(p, 1, 1);
    HasRef(p, 1, 2);
  }

  lemma TwoDefinitionsShape(first: Instr)
    requires first == Move(0, 1) || first == Unknown(0)
    ensures TwoDefinitions(first).Shaped() && !TwoDefinitions(first).OneDefinition()
    ensures TwoDefinitions(first).Defined(0)
  {
    hide Program.Refs, Graph.Valid;
    var p := TwoDefinitions(first);
    LineValid();
    forall r | r in p.Refs() ensures p.RefOk(r) && (p.DefOf(r).Var? ==> p.DefOf(r).v !in p.consts) {
      TwoDefinitionsRefs(first, r);
    }
    TwoDefinitionsRefs(first, InstAt(1, 0));
    TwoDefinitionsRefs(first, InstAt(1, 1));
    assert p.DefOf(InstAt(1, 0)) == p.DefOf(InstAt(1, 1)) == Var(0);
  }

  /** Without it the values do not climb: in a program like this the records of the first
      visit go from one constant to another, or from overdefined back to a constant. */
  lemma OneDefinitionNeeded(first: Instr, info: seq<Info>)
    requires first == Move(0, 1) || first == Unknown(0)
    requires var p := TwoDefinitions(first);
             |info| == p.vars && forall v :: 0 <= v < p.vars ==> info[v] == InitInfo(p, v)
    ensures var p := TwoDefinitions(first);
            var info1 := Ruled(info, p.code[1].body[0]);
            var info2 := Ruled(info1, p.code[1].body[1]);
            && p.Shaped() && !p.OneDefinition()
            && ValueOf(info[0]) == Bottom
            && ValueOf(info1[0]) == (if first.Move? then Known(1) else Top)
            && ValueOf(info2[0]) == Known(2) && !Higher(info1, info2)
  {
    hide Program.Shaped, Program.OneDefinition, Program.Defined, Line;
    TwoDefinitionsShape(first);
    var p := TwoDefinitions(first);
    assert info[0] == Info(Undef, Nothing) && info[1] == Info(Constant, Word(1)) && info[2] == Info(Constant, Word(2));
    var info1 := Ruled(info, first);
    assert ValueOf(info1[0]) == (if first.Move? then Known(1) else Top);
    assert info1[2] == info[2];
  }

  class Solver {
    const p: Program
    var info: seq<Info>
    var exec: Edges
    var visited: set<nat>
    var insts: set<Ref>
    var blocks: set<nat>

    ghost function St(): State
      reads this
    {
      State(info, exec, visited, insts, blocks)
    }

    constructor (p: Program)
      requires p.Valid()
      ensures this.p == p && Good(p, St(), {}, {}) && visited == {} && insts == {} && blocks == {p.g.entry}
      ensures |info| == p.vars && forall v :: 0 <= v < p.vars ==> info[v] == InitInfo(p, v)
    {
      this.p := p;
      info := seq(p.vars, v requires 0 <= v < p.vars => InitInfo(p, v));
      exec, visited, insts := {}, {}, {};
      blocks := {p.g.entry};
      new;
      StartGood(p, St());
    }

    /** sccp_evaluate of a phi. */
    method EvaluatePhi(b: nat, k: nat) returns (changed: bool)
      requires p.Valid() && Consistent(p, info, exec) && PhiAt(b, k) in p.Refs()
      modifies this`info
      ensures |info| == |old(info)| && p.code[b].phis[k].dst < |info|
      ensures info == old(info)[p.code[b].phis[k].dst := info[p.code[b].phis[k].dst]]
      ensures Meets(old(info)[p.code[b].phis[k].dst], info[p.code[b].phis[k].dst],
                Expected(p, old(info), exec, PhiAt(b, k)))
      ensures changed <==> info != old(info)
    {
      hide Graph.Valid, Program.Valid, Feasible, PhiValue, Consistent, Expected, Program.Reads, Program.DefOf,
           Program.Refs;
      PhiShape(p, info, exec, b, k);
      var d, args, g := p.code[b].phis[k].dst, p.code[b].phis[k].args, p.g;
      ghost var old_ := info[d];
      changed := false;
      var i := 0;
      while i < |args| && !(!info[args[i]].level.Undef? && Feasible(g, exec, b, i))
        invariant 0 <= i <= |args|
        invariant forall j :: 0 <= j < i ==> !(Feasible(g, exec, b, j) && !info[args[j]].level.Undef?)
      {
        i := i + 1;
      }
      var any, over, differ, last := i < |args|, false, false, Nothing;
      if any {
        ghost var seen := i;
        i := 0;
        while i < |args| && !(info[args[i]].level.Overdefined? && Feasible(g, exec, b, i))
          invariant 0 <= i <= |args|
          invariant forall j :: 0 <= j < i ==> !(Feasible(g, exec, b, j) && info[args[j]].level.Overdefined?)
        {
          i := i + 1;
        }
        over := i < |args|;
        if over {
          if !info[d].level.Overdefined? {
            changed := true;
            info := info[d := info[d].(level := Overdefined)];
          }
        } else {
          last := LastConstant(b, args, seen);
          i := 0;
          while i < |args| && !(info[args[i]].level.Constant? && info[args[i]].rec != last && Feasible(g, exec, b, i))
            invariant 0 <= i <= |args|
            invariant forall j :: 0 <= j < i ==>
                        !(Feasible(g, exec, b, j) && info[args[j]].level.Constant? && info[args[j]].rec != last)
          {
            i := i + 1;
          }
          differ := i < |args|;
          if !differ {
            if info[d].level.Undef? {
              changed := true;
              info := info[d := Info(Constant, last)];
            }
          } else if !info[d].level.Overdefined? {
            changed := true;
            info := info[d := info[d].(level := Overdefined)];
          }
        }
      }
      if !over && any {
        PhiMeets(g, old(info), exec, b, args, old_, any, over, last, differ, info[d]);
      } else {
        PhiMeets(g, old(info), exec, b, args, old_, any, over, Nothing,
          AnyDiffers(g, old(info), exec, b, args, Nothing), info[d]);
      }
    }

    /** The third pass: the value of the last constant operand of an executable edge. */
    method LastConstant(b: nat, args: seq<nat>, ghost seen: nat) returns (last: Recorded)
      requires b < |p.g.preds| && |p.g.preds[b]| == |args|
      requires forall j :: 0 <= j < |args| ==> p.g.preds[b][j] < |p.g.edges|
      requires forall k :: 0 <= k < |args| ==> args[k] < |info|
      requires seen < |args| && Feasible(p.g, exec, b, seen) && info[args[seen]].level.Constant?
      ensures exists j :: 0 <= j < |args| && Feasible(p.g, exec, b, j) && info[args[j]] == Info(Constant, last)
    {
      hide Feasible;
      last := Nothing;
      var i := 0;
      while i < |args|
        invariant 0 <= i <= |args|
        invariant seen < i ==> exists j ::
                    0 <= j < i && Feasible(p.g, exec, b, j) && info[args[j]] == Info(Constant, last)
      {
        if info[args[i]].level.Constant? && Feasible(p.g, exec, b, i) {
          last := info[args[i]].rec;
        }
        i := i + 1;
      }
    }

    /** sccp_evaluate: the scalar cases and the phi. */
    method Evaluate(r: Ref) returns (changed: bool)
      requires p.Valid() && Consistent(p, info, exec) && r in p.Refs() && p.DefOf(r).Var?
      modifies this`info
      ensures |info| == |old(info)| && p.DefOf(r).v < |info|
      ensures info == old(info)[p.DefOf(r).v := info[p.DefOf(r).v]]
      ensures Meets(old(info)[p.DefOf(r).v], info[p.DefOf(r).v], Expected(p, old(info), exec, r))
      ensures r.InstAt? ==> info == Ruled(old(info), p.code[r.block].body[r.index])
      ensures changed <==> info != old(info)
    {
      hide Graph.Valid, Program.Valid, PhiValue, Consistent, MoveRule, BinRule, UnRule, BinValue, UnValue;
      RefFacts(p, info, exec, r);
      if r.PhiAt? {
        changed := EvaluatePhi(r.block, r.index);
        return;
      }
      ReadsSeen(p, r);
      var new_: Info;
      match p.code[r.block].body[r.index] {
      case Move(d, s) =>
        new_ := MoveRule(info[d], info[s]);
        MoveMeets(info[d], info[s]);
      case Bin(op, d, a, b) =>
        new_ := BinRule(op, info[d], info[a], info[b]);
        BinMeets(op, info[d], info[a], info[b]);
      case Un(op, d, a) =>
        new_ := UnRule(op, info[d], info[a]);
        UnMeets(op, info[d], info[a]);
      case Unknown(d) =>
        new_ := if info[d].level.Overdefined? then info[d] else info[d].(level := Overdefined);
      }
      var d := p.DefOf(r).v;
      changed := new_ != info[d];
      info := info[d := new_];
    }

    /** getFeasibleSuccessors. */
    method FeasibleSuccessors(r: Ref) returns (succ: set<nat>)
      requires p.Valid() && Consistent(p, info, exec) && r in p.Refs() && p.DefOf(r).NoVar?
      ensures succ == JumpTargets(p, info, r)
    {
      hide Graph.Valid, Program.Valid, PhiValue, Consistent;
      RefFacts(p, info, exec, r);
      if r.InstAt? {
        ReadsSeen(p, r);
      }
      succ := {};
      match p.code[r.block].body[r.index]
      case If(rel, a, b, yes, no) =>
        if info[a].level.Overdefined? || info[b].level.Overdefined? {
          succ := {yes, no};
        } else if info[a].level.Constant? && info[b].level.Constant? {
          succ := if Holds(rel, info[a].rec.w, info[b].rec.w) then {yes} else {no};
        }
      case Goto(t) =>
        succ := {t};
      case _ =>
    }

    /** sccp_instruction. */
    method Instruction(r: Ref, ghost scope: set<nat>, ghost busy: set<Ref>)
      requires Good(p, St(), scope, busy) && r in p.Refs() && Active(p, info, scope, r)
      modifies this
      ensures Good(p, St(), scope, busy - {r}) && Higher(old(info), info) && visited == old(visited)
      ensures Left(p, St()) <= Left(p, old(St())) && (Left(p, St()) == Left(p, old(St())) ==> St() == old(St()))
    {
      hide Graph.Valid, Program.Valid, Consistent, Covered, InRange, Left, Expected, JumpTargets, Program.UsesOf,
           Program.Refs, Higher, Program.DefOf, Active, UnderAll;
      ghost var st := St();
      if p.DefOf(r).Var? {
        var changed := Evaluate(r);
        if changed {
          insts := insts + p.UsesOf(p.DefOf(r).v);
        }
        assert Evaluated(p, st, St(), r);
        EvaluatedKeeps(p, st, St(), scope, busy, r);
      } else {
        var todo := FeasibleSuccessors(r);
        ghost var succ := todo;
        while todo != {}
          invariant todo <= succ && info == st.info && visited == st.visited && insts == st.insts
          invariant forall s, t :: (s, t) in exec <==> (s, t) in st.exec || (s == r.block && t in succ - todo)
          invariant forall t :: t in blocks <==> t in st.blocks || (t in succ - todo && (r.block, t) !in st.exec)
          decreases todo
        {
          var t :| t in todo;
          todo := todo - {t};
          if (r.block, t) !in exec {
            exec := exec + {(r.block, t)};
            blocks := blocks + {t};
          }
        }
        assert Jumped(p, st, St(), r);
        JumpedKeeps(p, st, St(), scope, busy, r);
        HigherSelf(info);
      }
    }

    /** sccp_block: the phis every time, the rest on the first visit. */
    method ProcessBlock(b: nat)
      requires Good(p, St(), visited + {b}, RefsPending(p, visited, b)) && b < |p.code| && b in Below(p.g.blocks)
      modifies this
      ensures Good(p, St(), visited, {}) && Higher(old(info), info) && visited == old(visited) + {b}
      ensures Left(p, St()) <= Left(p, old(St()))
      ensures Left(p, St()) == Left(p, old(St())) ==> insts == old(insts) && blocks == old(blocks)
    {
      hide Graph.Valid, Program.Valid, Consistent, Covered, InRange, Left, Good, Higher, Program.Refs, RefsPending;
      ghost var scope, was := visited + {b}, RefsPending(p, visited, b);
      ghost var busy, phisDone: set<Ref> := was, {};
      HigherSelf(info);
      var k := 0;
      while k < |p.code[b].phis|
        invariant 0 <= k <= |p.code[b].phis| && visited == old(visited)
        invariant Good(p, St(), scope, busy) && busy <= was && forall i: nat :: i < k ==> PhiAt(b, i) !in busy
        invariant Higher(old(info), info) && Left(p, St()) <= Left(p, old(St()))
        invariant Left(p, St()) == Left(p, old(St())) ==> St() == old(St())
      {
        HasRef(p, b, k);
        ghost var info1 := info;
        Instruction(PhiAt(b, k), scope, busy);
        HigherTrans(old(info), info1, info);
        busy := busy - {PhiAt(b, k)};
        k := k + 1;
      }
      if b !in visited {
        MarkVisited(p, St(), scope, busy, b);
        visited := visited + {b};
        k := 0;
        while k < |p.code[b].body|
          invariant 0 <= k <= |p.code[b].body| && visited == old(visited) + {b}
          invariant Good(p, St(), scope, busy) && busy <= was
          invariant forall i: nat :: i < |p.code[b].phis| ==> PhiAt(b, i) !in busy
          invariant forall i: nat :: i < k ==> InstAt(b, i) !in busy
          invariant Higher(old(info), info) && Left(p, St()) <= Left(p, old(St()))
          invariant Left(p, St()) == Left(p, old(St())) ==> insts == old(insts) && blocks == old(blocks)
        {
          HasRef(p, b, k);
          ghost var info1 := info;
          Instruction(InstAt(b, k), scope, busy);
          HigherTrans(old(info), info1, info);
          busy := busy - {InstAt(b, k)};
          k := k + 1;
        }
      }
      NoneBusy(p, old(visited), b, busy);
      assert visited == scope && busy == {};
    }

    /** The solver: both lists until both are empty. */
    method Solve()
      requires p.Valid() && Good(p, St(), visited, {})
      modifies this
      ensures Good(p, St(), visited, {}) && insts == {} && blocks == {}
      ensures Higher(old(info), info) && old(visited) <= visited
    {
      hide Graph.Valid, Program.Valid, Consistent, Covered, InRange, Left, Good, Higher, Program.Refs, RefsPending;
      HigherSelf(info);
      while blocks != {} || insts != {}
        invariant Good(p, St(), visited, {}) && Higher(old(info), info) && old(visited) <= visited
        decreases Left(p, St()), |insts| + |blocks|
      {
        ghost var before := St();
        while insts != {}
          invariant Good(p, St(), visited, {}) && Higher(old(info), info) && old(visited) <= visited
          invariant Left(p, St()) <= Left(p, before)
          invariant (Left(p, St()) == Left(p, before) ==> insts <= before.insts && blocks == before.blocks)
          decreases Left(p, St()), insts
        {
          var r :| r in insts;
          TakeInst(p, St(), r);
          insts := insts - {r};
          ghost var info1 := info;
          Instruction(r, visited, {r});
          HigherTrans(old(info), info1, info);
          assert {r} - {r} == {};
        }
        while blocks != {}
          invariant Good(p, St(), visited, {}) && Higher(old(info), info) && old(visited) <= visited
          invariant Left(p, St()) <= Left(p, before)
          invariant (Left(p, St()) == Left(p, before) ==> insts == {} && blocks <= before.blocks)
          decreases Left(p, St()), blocks
        {
          var b :| b in blocks;
          TakeBlock(p, St(), b);
          blocks := blocks - {b};
          ghost var info1 := info;
          ProcessBlock(b);
          HigherTrans(old(info), info1, info);
        }
        if Left(p, St()) == Left(p, before) {
          NotBothEmpty(before.insts, before.blocks);
        }
      }
    }
  }

  /** What must be done before block b counts as processed. */
  ghost function RefsPending(p: Program, visited: set<nat>, b: nat): set<Ref> {
    set r | r in p.Refs() && r.block == b && (r.PhiAt? || b !in visited)
  }

  lemma NotBothEmpty(a: set<Ref>, b: set<nat>)
    requires a != {} || b != {}
    ensures |a| + |b| > 0
  {
  }

  lemma NoneBusy(p: Program, visited: set<nat>, b: nat, busy: set<Ref>)
    requires b < |p.code| && busy <= RefsPending(p, visited, b)
    requires (forall i: nat :: i < |p.code[b].phis| ==> PhiAt(b, i) !in busy)
    requires b !in visited ==> forall i: nat :: i < |p.code[b].body| ==> InstAt(b, i) !in busy
    ensures busy == {}
  {
    forall r | r in RefsPending(p, visited, b) ensures r !in busy {
      assert r == if r.PhiAt? then PhiAt(b, r.index) else InstAt(b, r.index);
    }
  }

  lemma HasRef(p: Program, b: nat, k: nat)
    requires b < |p.code|
    ensures k < |p.code[b].phis| ==> PhiAt(b, k) in p.Refs()
    ensures k < |p.code[b].body| ==> InstAt(b, k) in p.Refs()
  {
  }

  lemma HigherSelf(info: seq<Info>)
    ensures Higher(info, info)
  {
  }

  lemma HigherTrans(a: seq<Info>, b: seq<Info>, c: seq<Info>)
    requires Higher(a, b) && Higher(b, c)
    ensures Higher(a, c)
  {
    forall v | 0 <= v < |a| ensures Leq(ValueOf(a[v]), ValueOf(c[v])) {
      assert Leq(ValueOf(a[v]), ValueOf(b[v])) && Leq(ValueOf(b[v]), ValueOf(c[v]));
    }
  }

  lemma MarkVisited(p: Program, st: State, scope: set<nat>, busy: set<Ref>, b: nat)
    requires Good(p, st, scope, busy) && b in Below(p.g.blocks)
    ensures Good(p, st.(visited := st.visited + {b}), scope, busy)
    ensures Left(p, st.(visited := st.visited + {b})) == Left(p, st)
  {
    hide Settled, Graph.Valid, Consistent;
  }

  lemma TakeInst(p: Program, st: State, r: Ref)
    requires Good(p, st, st.visited, {}) && r in st.insts
    ensures Good(p, st.(insts := st.insts - {r}), st.visited, {r}) && r in p.Refs() && Active(p, st.info, st.visited, r)
    ensures Left(p, st.(insts := st.insts - {r})) == Left(p, st)
  {
    hide Settled, Program.Valid, Consistent, Raised, IsSolution, Higher, Started, Program.Refs;
  }

  lemma TakeBlock(p: Program, st: State, b: nat)
    requires Good(p, st, st.visited, {}) && b in st.blocks
    ensures Good(p, st.(blocks := st.blocks - {b}), st.visited + {b}, RefsPending(p, st.visited, b))
    ensures Left(p, st.(blocks := st.blocks - {b})) == Left(p, st) && b in Below(p.g.blocks) && b < |p.code|
  {
    hide Settled, Consistent, Graph.ListsDistinct, Raised, IsSolution, Higher, Started;
  }

  /** With both lists empty a solution is found, and there is none below it. */
  lemma LeastSolution(p: Program, st: State)
    requires Good(p, st, st.visited, {}) && st.insts == {} && st.blocks == {}
    ensures IsSolution(p, st)
    ensures forall q: State :: IsSolution(p, q) ==>
              Higher(st.info, q.info) && st.exec <= q.exec && st.visited <= q.visited
  {
    hide Program.Valid, Expected, JumpTargets, Raised, Higher, InitInfo, Program.Refs, Program.Reads, Program.DefOf;
    forall r | r in p.Refs() && Active(p, st.info, st.visited, r) ensures Satisfied(p, st, r) {
      assert Settled(p, st.info, st.exec, r);
    }
  }

  ghost predicate AnyDiffers(g: Graph, info: seq<Info>, exec: Edges, b: nat, args: seq<nat>, last: Recorded)
    requires b < |g.preds| && |g.preds[b]| == |args| && forall j :: 0 <= j < |args| ==> g.preds[b][j] < |g.edges|
    requires forall k :: 0 <= k < |args| ==> args[k] < |info|
  {
    exists j :: 0 <= j < |args| && Feasible(g, exec, b, j) && info[args[j]].level.Constant? && info[args[j]].rec != last
  }

  lemma PhiShape(p: Program, info: seq<Info>, exec: Edges, b: nat, k: nat)
    requires p.Valid() && Consistent(p, info, exec) && PhiAt(b, k) in p.Refs()
    ensures b < |p.g.preds| && b < |p.code| && k < |p.code[b].phis| && |p.code[b].phis[k].args| == |p.g.preds[b]|
    ensures forall j :: 0 <= j < |p.g.preds[b]| ==> p.g.preds[b][j] < |p.g.edges|
    ensures var d, args := p.code[b].phis[k].dst, p.code[b].phis[k].args;
            && d < |info| && Sane(info[d]) && (forall j :: 0 <= j < |args| ==> args[j] < |info| && Sane(info[args[j]]))
            && Expected(p, info, exec, PhiAt(b, k)) == PhiValue(p.g, info, exec, b, args, |args|)
            && Leq(ValueOf(info[d]), PhiValue(p.g, info, exec, b, args, |args|))
  {
    hide Graph.Valid, Consistent, Program.Valid;
    RefFacts(p, info, exec, PhiAt(b, k));
    var args := p.code[b].phis[k].args;
    assert p.Reads(PhiAt(b, k)) == args && forall j :: 0 <= j < |args| ==> args[j] in args;
  }

  lemma StartGood(p: Program, st: State)
    requires p.Valid() && st.exec == {} && st.visited == {} && st.insts == {} && st.blocks == {p.g.entry}
    requires |st.info| == p.vars && forall v :: 0 <= v < p.vars ==> st.info[v] == InitInfo(p, v)
    ensures Good(p, st, {}, {})
  {
    hide Expected, Graph.ListsDistinct;
    forall r | r in p.Refs() && p.DefOf(r).Var?
      ensures Leq(Vals(st.info, p.DefOf(r).v), Expected(p, st.info, st.exec, r))
    {
      assert p.Defined(p.DefOf(r).v);
    }
  }
}
