/** What the result of sparse conditional constant propagation says about the runs of
    the program. */
module SccpSoundness {
  import opened Cfg
  import opened Words
  import opened Sccp
  import opened SccpSolver

  /** In front of instruction pc of a block; env holds the variables, of which `written`
      have been written so far. */
  datatype Config = Config(block: nat, pc: nat, env: seq<int>, written: set<nat>)

  /** A run reads only what it has written, or what nothing ever writes. */
  predicate Readable(p: Program, c: Config, v: nat) {
    v < |c.env| && (v in c.written || !p.Defined(v))
  }

  function Set(c: Config, d: nat, w: int): Config
    requires d < |c.env|
  {
    Config(c.block, c.pc + 1, c.env[d := w], c.written + {d})
  }

  function PhiDsts(phis: seq<Phi>): set<nat> {
    set k | 0 <= k < |phis| :: phis[k].dst
  }

  /** Control passes to block t by its incoming edge at position j: all phis of t take
      their operands for that edge at once. */
  ghost predicate EnterBy(p: Program, c: Config, c': Config, t: nat, j: nat) {
    && t < |p.code| && t < |p.g.preds| && j < |p.g.preds[t]| && p.g.preds[t][j] < |p.g.edges|
    && p.g.edges[p.g.preds[t][j]].src == c.block
    && c'.block == t && c'.pc == 0 && |c'.env| == |c.env|
    && c'.written == c.written + PhiDsts(p.code[t].phis)
    && (forall k :: 0 <= k < |p.code[t].phis| ==>
          var phi := p.code[t].phis[k];
          && j < |phi.args| && Readable(p, c, phi.args[j]) && phi.dst < |c.env|
          && c'.env[phi.dst] == c.env[phi.args[j]])
    && (forall v: nat :: v < |c.env| && v !in PhiDsts(p.code[t].phis) ==> c'.env[v] == c.env[v])
  }

  ghost predicate Enter(p: Program, c: Config, c': Config, t: nat) {
    exists j: nat :: EnterBy(p, c, c', t, j)
  }

  ghost predicate Step(p: Program, c: Config, c': Config) {
    && c.block < |p.code| && c.pc < |p.code[c.block].body|
    && match p.code[c.block].body[c.pc]
       case Nop => c' == c.(pc := c.pc + 1)
       case Move(d, s) => Readable(p, c, s) && d < |c.env| && c' == Set(c, d, c.env[s])
       case Bin(op, d, a, b) =>
         && Readable(p, c, a) && Readable(p, c, b) && d < |c.env|
         && exists w :: (DividesByZero(op, c.env[b]) || w == Apply(op, c.env[a], c.env[b])) && c' == Set(c, d, w)
       case Un(op, d, a) => Readable(p, c, a) && d < |c.env| && c' == Set(c, d, ApplyUn(op, c.env[a]))
       case Unknown(d) => d < |c.env| && exists w :: c' == Set(c, d, w)
       case If(rel, a, b, yes, no) =>
         Readable(p, c, a) && Readable(p, c, b) && Enter(p, c, c', if Holds(rel, c.env[a], c.env[b]) then yes else no)
       case Goto(t) => Enter(p, c, c', t)
  }

  ghost predicate Initial(p: Program, c: Config) {
    && c.block == p.g.entry && c.pc == 0 && |c.env| == p.vars && c.written == {}
    && forall v: nat :: v in p.consts && v < |c.env| ==> c.env[v] == p.consts[v]
  }

  ghost predicate IsRun(p: Program, run: seq<Config>) {
    run != [] && Initial(p, run[0]) && forall i :: 0 <= i < |run| - 1 ==> Step(p, run[i], run[i + 1])
  }

  /** The lattice is right about what can be read now. */
  ghost predicate Right(p: Program, info: seq<Info>, c: Config) {
    && |c.env| == |info|
    && forall v: nat :: Readable(p, c, v) ==>
         match ValueOf(info[v])
         case Top => true
         case Known(w) => c.env[v] == w
         case Bottom => false
  }

  /** Both lists are empty and everything in the visited blocks is settled. */
  ghost predicate Solved(p: Program, st: State) {
    Good(p, st, st.visited, {}) && st.insts == {} && st.blocks == {}
  }

  lemma SettledThere(p: Program, st: State, r: Ref)
    requires Solved(p, st) && r in p.Refs() && r.block in st.visited
    ensures Settled(p, st.info, st.exec, r)
  {
    hide Graph.Valid, Settled, Consistent;
  }

  lemma SetRight(p: Program, st: State, c: Config, r: Ref, w: int)
    requires Solved(p, st) && r in p.Refs() && r.block in st.visited && p.DefOf(r).Var? && p.DefOf(r).v < |c.env|
    requires Right(p, st.info, c)
    requires Expected(p, st.info, st.exec, r).Top? || Expected(p, st.info, st.exec, r) == Known(w)
    ensures Right(p, st.info, Set(c, p.DefOf(r).v, w))
  {
    hide Graph.Valid, Expected, Program.Valid, Good;
    SettledThere(p, st, r);
  }

  lemma {:induction false} PhiRight(g: Graph, info: seq<Info>, exec: Edges, b: nat, args: seq<nat>, n: nat, j: nat)
    requires b < |g.preds| && j < n <= |g.preds[b]| == |args| && forall j :: 0 <= j < n ==> g.preds[b][j] < |g.edges|
    requires Feasible(g, exec, b, j)
    ensures Leq(Vals(info, args[j]), PhiValue(g, info, exec, b, args, n))
  {
    PhiFacts(g, info, exec, b, args, n);
  }

  lemma EnterRight(p: Program, st: State, c: Config, c': Config, t: nat)
    requires Solved(p, st) && Right(p, st.info, c) && Enter(p, c, c', t) && (c.block, t) in st.exec && t in st.visited
    ensures Right(p, st.info, c')
  {
    hide Graph.Valid, Expected, Program.Valid, Good, PhiValue;
    var j: nat :| EnterBy(p, c, c', t, j);
    forall v: nat | Readable(p, c', v)
      ensures v < |st.info|
      ensures match ValueOf(st.info[v]) case Top => true case Known(w) => c'.env[v] == w case Bottom => false
    {
      if v in PhiDsts(p.code[t].phis) {
        var k: nat :| k < |p.code[t].phis| && p.code[t].phis[k].dst == v;
        EnteredPhi(p, st, c, t, k, j);
      } else {
        assert Readable(p, c, v);
      }
    }
  }

  lemma EnteredPhi(p: Program, st: State, c: Config, t: nat, k: nat, j: nat)
    requires Solved(p, st) && t < |p.code| && t in st.visited && (c.block, t) in st.exec
    requires k < |p.code[t].phis| && t < |p.g.preds| && j < |p.g.preds[t]| && p.g.preds[t][j] < |p.g.edges|
    requires p.g.edges[p.g.preds[t][j]].src == c.block && j < |p.code[t].phis[k].args|
    ensures Leq(Vals(st.info, p.code[t].phis[k].args[j]), Vals(st.info, p.code[t].phis[k].dst))
  {
    hide Graph.Valid, PhiValue;
    var r := PhiAt(t, k);
    assert r in p.Refs();
    SettledThere(p, st, r);
    RefShape(p, r);
    PhiRight(p.g, st.info, st.exec, t, p.code[t].phis[k].args, |p.g.preds[t]|, j);
  }

  lemma StepRight(p: Program, st: State, c: Config, c': Config)
    requires Solved(p, st) && Right(p, st.info, c) && c.block in st.visited && Step(p, c, c')
    ensures Right(p, st.info, c') && c'.block in st.visited
  {
    hide Graph.Valid, Program.Valid, Good, Enter, Apply, ApplyUn;
    var r := InstAt(c.block, c.pc);
    assert r in p.Refs();
    SettledThere(p, st, r);
    match p.code[c.block].body[c.pc]
    case Nop =>
      assert forall v: nat :: Readable(p, c', v) <==> Readable(p, c, v);
    case Move(d, s) =>
      SetRight(p, st, c, r, c.env[s]);
    case Bin(op, d, a, b) =>
      var w :| (DividesByZero(op, c.env[b]) || w == Apply(op, c.env[a], c.env[b])) && c' == Set(c, d, w);
      SetRight(p, st, c, r, w);
    case Un(op, d, a) =>
      SetRight(p, st, c, r, ApplyUn(op, c.env[a]));
    case Unknown(d) =>
      var w :| c' == Set(c, d, w);
      SetRight(p, st, c, r, w);
    case If(rel, a, b, yes, no) =>
      JumpRight(p, st, c, c', r, if Holds(rel, c.env[a], c.env[b]) then yes else no);
    case Goto(t) =>
      JumpRight(p, st, c, c', r, t);
  }

  lemma JumpRight(p: Program, st: State, c: Config, c': Config, r: Ref, t: nat)
    requires Solved(p, st) && Right(p, st.info, c) && r in p.Refs() && r.block == c.block && c.block in st.visited
    requires t in JumpTargets(p, st.info, r) && Enter(p, c, c', t)
    ensures Right(p, st.info, c') && c'.block in st.visited
  {
    hide Graph.Valid, Program.Valid, Consistent, JumpTargets, Expected;
    SettledThere(p, st, r);
    assert (r.block, t) in st.exec;
    EnterRight(p, st, c, c', t);
  }

  lemma InitialRight(p: Program, st: State, c: Config)
    requires Solved(p, st) && Initial(p, c)
    ensures Right(p, st.info, c) && c.block in st.visited
  {
    hide Graph.Valid, Expected, Settled;
  }

  /** Soundness: wherever a run comes, the block is marked visited, and whatever it can
      read has the constant recorded for it, if one is recorded. */
  lemma {:induction false} RunsAreRight(p: Program, st: State, run: seq<Config>, i: nat)
    requires Solved(p, st) && IsRun(p, run) && i < |run|
    ensures run[i].block in st.visited && Right(p, st.info, run[i])
    decreases i
  {
    hide Solved, Step, Right, Initial;
    if i == 0 {
      InitialRight(p, st, run[0]);
    } else {
      RunsAreRight(p, st, run, i - 1);
      StepRight(p, st, run[i - 1], run[i - 1 + 1]);
    }
  }

  /** An instruction whose operands are known, and which does not divide by zero, has a known
      result: just the one that every run gets. */
  ghost predicate Folded(p: Program, info: seq<Info>, r: Ref)
    requires r in p.Refs() && r.InstAt?
  {
    match p.code[r.block].body[r.index]
    case Move(d, s) => Vals(info, d) == Vals(info, s)
    case Bin(op, d, a, b) =>
      && (Vals(info, a).Known? && Vals(info, b).Known? && !DividesByZero(op, Vals(info, b).w) ==>
           Vals(info, d) == Known(Apply(op, Vals(info, a).w, Vals(info, b).w)))
      && (Vals(info, d).Known? ==> Vals(info, a).Known? && Vals(info, b).Known?)
    case Un(op, d, a) =>
      && (Vals(info, a).Known? ==> Vals(info, d) == Known(ApplyUn(op, Vals(info, a).w)))
      && (Vals(info, d).Known? ==> Vals(info, a).Known?)
    case Unknown(d) => Vals(info, d) == Top
    case _ => true
  }

  lemma VisitedFolded(p: Program, st: State, r: Ref)
    requires Solved(p, st) && r in p.Refs() && r.InstAt? && r.block in st.visited
    ensures Folded(p, st.info, r)
  {
    hide Graph.Valid, Good, Apply, ApplyUn;
    SettledThere(p, st, r);
  }

  /** The whole of the analysis: sound for all runs, and nothing is recorded that some
      solution does without. */
  method Propagate(p: Program) returns (info: seq<Info>, visited: set<nat>, ghost st: State)
    requires p.Valid()
    ensures st.info == info && st.visited == visited && IsSolution(p, st)
    ensures forall q: State :: IsSolution(p, q) ==>
              Higher(info, q.info) && st.exec <= q.exec && visited <= q.visited
    ensures forall r :: r in p.Refs() && r.InstAt? && r.block in visited ==> Folded(p, info, r)
    ensures forall run: seq<Config>, i: nat :: IsRun(p, run) && i < |run| ==>
              run[i].block in visited && Right(p, info, run[i])
    ensures |info| == p.vars && forall v: nat :: v < p.vars ==> Leq(ValueOf(InitInfo(p, v)), ValueOf(info[v]))
  {
    hide Good, Program.Valid, Right, IsRun, InitInfo, IsSolution, Folded, Program.Refs;
    var solver := new Solver(p);
    ghost var info0 := solver.info;
    solver.Solve();
    info, visited := solver.info, solver.visited;
    st := solver.St();
    LeastSolution(p, st);
    forall r | r in p.Refs() && r.InstAt? && r.block in visited ensures Folded(p, info, r) {
      VisitedFolded(p, st, r);
    }
    forall run: seq<Config>, i: nat | IsRun(p, run) && i < |run|
      ensures run[i].block in visited && Right(p, info, run[i])
    {
      RunsAreRight(p, st, run, i);
    }
    assert Higher(info0, info);
  }
}
