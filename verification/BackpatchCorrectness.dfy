/** The linear code does what the source says: the same steps in the same order, for
    terminating and for endless runs. */
module BackpatchCorrectness {
  import opened Words
  import opened Backpatch
  import opened BackpatchFill
  import opened BackpatchGen

  /** The value that a variable has after a history of executed steps. */
  type Oracle = (nat, seq<nat>) -> int

  function Eval(o: Oracle, a: Operand, h: seq<nat>): int {
    match a
    case Variable(x) => o(x, h)
    case Literal(n) => n
  }

  // ---------- the source ----------

  function CondValue(c: Cond, o: Oracle, h: seq<nat>): (r: (bool, seq<nat>)) {
    match c
    case Operand(pre, a) => (Eval(o, a, h + pre) != 0, h + pre)
    case Compare(pre, rel, a, b) => (Holds(rel, Eval(o, a, h + pre), Eval(o, b, h + pre)), h + pre)
    case And(l, r) =>
      var (v, h1) := CondValue(l, o, h);
      if v then CondValue(r, o, h1) else (false, h1)
    case Or(l, r) =>
      var (v, h1) := CondValue(l, o, h);
      if v then (true, h1) else CondValue(r, o, h1)
    case Not(d) =>
      var (v, h1) := CondValue(d, o, h);
      (!v, h1)
  }

  datatype Outcome = Normal | Broken | Continued | Returned

  /** Done, or still at work when the fuel for loop rounds is used up. */
  datatype Result = Done(outcome: Outcome, hist: seq<nat>) | Working(hist: seq<nat>)

  function Execute(s: Stmt, o: Oracle, h: seq<nat>, fuel: nat): Result
    decreases fuel, s
  {
    match s
    case Simple(steps) => Done(Normal, h + steps)
    case IfThen(c, t) =>
      var (v, h1) := CondValue(c, o, h);
      if v then Execute(t, o, h1, fuel) else Done(Normal, h1)
    case IfElse(c, t, u) =>
      var (v, h1) := CondValue(c, o, h);
      if v then Execute(t, o, h1, fuel) else Execute(u, o, h1, fuel)
    case While(c, t) =>
      if fuel == 0 then Working(h)
      else
        var (v, h1) := CondValue(c, o, h);
        if !v then Done(Normal, h1)
        else
          (match Execute(t, o, h1, fuel - 1)
           case Working(h2) => Working(h2)
           case Done(Broken, h2) => Done(Normal, h2)
           case Done(Returned, h2) => Done(Returned, h2)
           case Done(_, h2) => Execute(s, o, h2, fuel - 1))
    case Break => Done(Broken, h)
    case Continue => Done(Continued, h)
    case Return(steps) => Done(Returned, h + steps)
    case Block(ss) => ExecuteAll(ss, o, h, fuel)
  }

  function ExecuteAll(ss: seq<Stmt>, o: Oracle, h: seq<nat>, fuel: nat): Result
    decreases fuel, ss
  {
    if ss == [] then Done(Normal, h)
    else match Execute(ss[0], o, h, fuel)
      case Done(Normal, h1) => ExecuteAll(ss[1..], o, h1, fuel)
      case r => r
  }

  // ---------- the machine ----------

  datatype Program = Program(base: nat, code: seq<Insn>)

  datatype Config = Config(pc: nat, hist: seq<nat>)

  datatype StepResult = Go(next: Config) | Halt | Stuck

  function Follow(hole: Hole, h: seq<nat>): StepResult {
    if hole.To? then Go(Config(hole.id, h)) else Stuck
  }

  function Step(p: Program, o: Oracle, c: Config): StepResult {
    if c.pc < p.base || c.pc >= p.base + |p.code| then Stuck
    else match p.code[c.pc - p.base]
      case Do(step) => Go(Config(c.pc + 1, c.hist + [step]))
      case Mark => Go(Config(c.pc + 1, c.hist))
      case Jump(to) => Follow(to, c.hist)
      case Branch(rel, a, b, yes, no) =>
        Follow(if Holds(rel, Eval(o, a, c.hist), Eval(o, b, c.hist)) then yes else no, c.hist)
      case Exit => Halt
  }

  /** k steps lead from c to d. */
  predicate Reaches(p: Program, o: Oracle, c: Config, d: Config, k: nat)
    decreases k
  {
    if k == 0 then c == d
    else Step(p, o, c).Go? && Reaches(p, o, Step(p, o, c).next, d, k - 1)
  }

  ghost predicate Has(p: Program, lo: nat, code: seq<Insn>) {
    p.base <= lo && lo + |code| <= p.base + |p.code| && p.code[lo - p.base..lo - p.base + |code|] == code
  }

  lemma {:induction false} ReachesOn(p: Program, o: Oracle, c: Config, d: Config, e: Config, k: nat, m: nat)
    requires Reaches(p, o, c, d, k) && Reaches(p, o, d, e, m)
    ensures Reaches(p, o, c, e, k + m)
    decreases k
  {
    if k > 0 {
      ReachesOn(p, o, Step(p, o, c).next, d, e, k - 1, m);
    }
  }

  lemma HasParts(p: Program, lo: nat, a: seq<Insn>, b: seq<Insn>)
    requires Has(p, lo, a + b)
    ensures Has(p, lo, a) && Has(p, lo + |a|, b)
  {
    var i := lo - p.base;
    var whole := p.code[i..i + |a + b|];
    assert whole == a + b;
    assert whole[..|a|] == a && whole[|a|..] == b;
    assert p.code[i..i + |a|] == whole[..|a|];
    assert p.code[i + |a|..i + |a| + |b|] == whole[|a|..];
  }

  lemma HasOne(p: Program, lo: nat, insn: Insn)
    requires Has(p, lo, [insn])
    ensures p.base <= lo < p.base + |p.code| && p.code[lo - p.base] == insn
  {
    assert p.code[lo - p.base..lo - p.base + 1][0] == insn;
  }

  lemma DoRuns(p: Program, o: Oracle, lo: nat, step: nat, h: seq<nat>)
    requires Has(p, lo, [Do(step)])
    ensures Reaches(p, o, Config(lo, h), Config(lo + 1, h + [step]), 1)
  {
    HasOne(p, lo, Do(step));
    ReachesNow(p, o, Config(lo + 1, h + [step]));
  }

  lemma ReachesNow(p: Program, o: Oracle, c: Config)
    ensures Reaches(p, o, c, c, 0)
  {
  }

  lemma {:induction false} StepsRun(p: Program, o: Oracle, steps: seq<nat>, lo: nat, h: seq<nat>)
    requires Has(p, lo, Steps(steps))
    ensures Reaches(p, o, Config(lo, h), Config(lo + |steps|, h + steps), |steps|)
    decreases |steps|
  {
    hide Has, Step, Reaches;
    if steps == [] {
      assert h + steps == h;
      ReachesNow(p, o, Config(lo, h));
    } else {
      assert Steps(steps) == [Do(steps[0])] + Steps(steps[1..]);
      HasParts(p, lo, [Do(steps[0])], Steps(steps[1..]));
      DoRuns(p, o, lo, steps[0], h);
      StepsRun(p, o, steps[1..], lo + 1, h + [steps[0]]);
      assert h + [steps[0]] + steps[1..] == h + steps;
      ReachesOn(p, o, Config(lo, h), Config(lo + 1, h + [steps[0]]), Config(lo + |steps|, h + steps), 1, |steps| - 1);
    }
  }

  // ---------- conditions ----------

  lemma CmpRuns(p: Program, o: Oracle, pre: seq<nat>, rel: Rel, a: Operand, b: Operand, lo: nat, yes: nat, no: nat,
                h: seq<nat>)
    requires Has(p, lo, Steps(pre) + [Cmp(rel, a, b, To(yes), To(no))])
    ensures var h1 := h + pre;
            Reaches(p, o, Config(lo, h), Config(if Holds(rel, Eval(o, a, h1), Eval(o, b, h1)) then yes else no, h1),
              |pre| + 1)
  {
    hide Has, Step, Reaches, Cmp;
    var insn := Cmp(rel, a, b, To(yes), To(no));
    HasParts(p, lo, Steps(pre), [insn]);
    StepsRun(p, o, pre, lo, h);
    var h1 := h + pre;
    var d := Config(if Holds(rel, Eval(o, a, h1), Eval(o, b, h1)) then yes else no, h1);
    TestRuns(p, o, rel, a, b, lo + |pre|, yes, no, h1);
    ReachesOn(p, o, Config(lo, h), Config(lo + |pre|, h1), d, |pre|, 1);
  }

  lemma TestRuns(p: Program, o: Oracle, rel: Rel, a: Operand, b: Operand, lo: nat, yes: nat, no: nat, h: seq<nat>)
    requires Has(p, lo, [Cmp(rel, a, b, To(yes), To(no))])
    ensures Reaches(p, o, Config(lo, h), Config(if Holds(rel, Eval(o, a, h), Eval(o, b, h)) then yes else no, h), 1)
  {
    HasOne(p, lo, Cmp(rel, a, b, To(yes), To(no)));
    ReachesNow(p, o, Config(if Holds(rel, Eval(o, a, h), Eval(o, b, h)) then yes else no, h));
  }

  lemma {:induction false} CondRuns(p: Program, o: Oracle, c: Cond, lo: nat, yes: nat, no: nat, h: seq<nat>)
    returns (k: nat)
    requires Has(p, lo, CondCode(c, lo, To(yes), To(no)))
    ensures k >= 1
    ensures Reaches(p, o, Config(lo, h), Config(if CondValue(c, o, h).0 then yes else no, CondValue(c, o, h).1), k)
    decreases c
  {
    hide Has, Step, Reaches, Cmp;
    match c
    case Operand(pre, a) =>
      CmpRuns(p, o, pre, Ne, a, Literal(0), lo, yes, no, h);
      k := |pre| + 1;
    case Compare(pre, rel, a, b) =>
      if Folded(a, b) {
        CmpRuns(p, o, pre, Ne, ValueOf(c), Literal(0), lo, yes, no, h);
      } else {
        CmpRuns(p, o, pre, rel, a, b, lo, yes, no, h);
      }
      k := |pre| + 1;
    case And(l, r) =>
      k := BothRun(p, o, c, l, r, lo, yes, no, h);
    case Or(l, r) =>
      k := BothRun(p, o, c, l, r, lo, yes, no, h);
    case Not(d) =>
      if IsValue(d) {
        CmpRuns(p, o, d.pre, Eq, ValueOf(d), Literal(0), lo, yes, no, h);
        k := |d.pre| + 1;
      } else {
        k := CondRuns(p, o, d, lo, no, yes, h);
      }
  }

  lemma {:induction false} BothRun(p: Program, o: Oracle, c: Cond, l: Cond, r: Cond, lo: nat, yes: nat, no: nat,
                                   h: seq<nat>)
    returns (k: nat)
    requires Has(p, lo, CondCode(c, lo, To(yes), To(no))) && (c == And(l, r) || c == Or(l, r))
    ensures k >= 1
    ensures Reaches(p, o, Config(lo, h), Config(if CondValue(c, o, h).0 then yes else no, CondValue(c, o, h).1), k)
    decreases c, 0
  {
    hide Has, Step, Reaches, CondCode, CondSize;
    var m := lo + CondSize(l);
    var y1, n1 := if c.And? then m else yes, if c.And? then no else m;
    AndCode(l, r, lo, To(yes), To(no));
    OrCode(l, r, lo, To(yes), To(no));
    HasParts(p, lo, CondCode(l, lo, To(y1), To(n1)), CondCode(r, m, To(yes), To(no)));
    k := CondRuns(p, o, l, lo, y1, n1, h);
    var (v, h1) := CondValue(l, o, h);
    if v == c.And? {
      var k2 := CondRuns(p, o, r, m, yes, no, h1);
      ReachesOn(p, o, Config(lo, h), Config(m, h1),
        Config(if CondValue(r, o, h1).0 then yes else no, CondValue(r, o, h1).1), k, k2);
      k := k + k2;
    }
  }

  // ---------- statements ----------

  ghost predicate Closed(ex: Exits, inLoop: bool) {
    ex.next.To? && ex.ret.To? && (inLoop ==> ex.brk.To?)
  }

  /** Where the machine is when the source has come to r: k steps, at pc. */
  ghost predicate Matches(p: Program, o: Oracle, start: Config, r: Result, end: nat, ex: Exits, inLoop: bool, fuel: nat,
                          pc: nat, k: nat)
    requires Closed(ex, inLoop)
  {
    && Reaches(p, o, start, Config(pc, r.hist), k)
    && match r
       case Working(_) => k >= fuel
       case Done(Normal, _) => pc == ex.next.id || pc == end
       case Done(Broken, _) => inLoop && pc == ex.brk.id
       case Done(Continued, _) => inLoop && pc == ex.cont
       case Done(Returned, _) => pc == ex.ret.id
  }

  lemma JumpRuns(p: Program, o: Oracle, lo: nat, to: Hole, h: seq<nat>)
    requires Has(p, lo, [Jump(to)]) && to.To?
    ensures Reaches(p, o, Config(lo, h), Config(to.id, h), 1)
  {
    HasOne(p, lo, Jump(to));
    assert Reaches(p, o, Config(to.id, h), Config(to.id, h), 0);
  }

  lemma MarkRuns(p: Program, o: Oracle, lo: nat, h: seq<nat>)
    requires Has(p, lo, [Mark])
    ensures Reaches(p, o, Config(lo, h), Config(lo + 1, h), 1)
  {
    HasOne(p, lo, Mark);
    assert Reaches(p, o, Config(lo + 1, h), Config(lo + 1, h), 0);
  }

  lemma {:induction false} StmtRuns(p: Program, o: Oracle, s: Stmt, lo: nat, ex: Exits, inLoop: bool, h: seq<nat>,
                                    fuel: nat)
    returns (k: nat, pc: nat)
    requires Has(p, lo, StmtCode(s, lo, ex)) && Closed(ex, inLoop) && Nested(s, inLoop)
    ensures Matches(p, o, Config(lo, h), Execute(s, o, h, fuel), lo + StmtSize(s), ex, inLoop, fuel, pc, k)
    decreases fuel, s, 1
  {
    hide Has, Step, Reaches, StmtCode, CondCode, ItemsCode, StmtSize, ItemsSize, CondSize, CondValue;
    match s
    case IfThen(c, t) =>
      k, pc := IfThenRuns(p, o, s, c, t, lo, ex, inLoop, h, fuel);
    case IfElse(c, t, u) =>
      k, pc := IfElseRuns(p, o, s, c, t, u, lo, ex, inLoop, h, fuel);
    case While(c, t) =>
      if fuel == 0 {
        ReachesNow(p, o, Config(lo, h));
        k, pc := 0, lo;
      } else {
        k, pc := WhileRuns(p, o, s, c, t, lo, ex, inLoop, h, fuel);
      }
    case Block(ss) =>
      k, pc := BlockRuns(p, o, s, ss, lo, ex, inLoop, h, fuel);
    case _ =>
      k, pc := SimpleRuns(p, o, s, lo, ex, inLoop, h, fuel);
  }

  lemma SimpleRuns(p: Program, o: Oracle, s: Stmt, lo: nat, ex: Exits, inLoop: bool, h: seq<nat>, fuel: nat)
    returns (k: nat, pc: nat)
    requires s.Simple? || s.Break? || s.Continue? || s.Return?
    requires Has(p, lo, StmtCode(s, lo, ex)) && Closed(ex, inLoop) && Nested(s, inLoop)
    ensures Matches(p, o, Config(lo, h), Execute(s, o, h, fuel), lo + StmtSize(s), ex, inLoop, fuel, pc, k)
  {
    hide Has, Step, Reaches, StmtCode;
    SimpleShape(s, lo, ex);
    match s
    case Simple(steps) =>
      StepsRun(p, o, steps, lo, h);
      k, pc := |steps|, lo + |steps|;
    case Break =>
      JumpRuns(p, o, lo, ex.brk, h);
      k, pc := 1, ex.brk.id;
    case Continue =>
      JumpRuns(p, o, lo, To(ex.cont), h);
      k, pc := 1, ex.cont;
    case Return(steps) =>
      HasParts(p, lo, Steps(steps), [Jump(ex.ret)]);
      StepsRun(p, o, steps, lo, h);
      JumpRuns(p, o, lo + |steps|, ex.ret, h + steps);
      ReachesOn(p, o, Config(lo, h), Config(lo + |steps|, h + steps), Config(ex.ret.id, h + steps), |steps|, 1);
      k, pc := |steps| + 1, ex.ret.id;
  }

  lemma {:induction false} IfThenRuns(p: Program, o: Oracle, s: Stmt, c: Cond, t: Stmt, lo: nat, ex: Exits,
                                      inLoop: bool, h: seq<nat>, fuel: nat)
    returns (k: nat, pc: nat)
    requires s == IfThen(c, t) && Has(p, lo, StmtCode(s, lo, ex)) && Closed(ex, inLoop) && Nested(s, inLoop)
    ensures Matches(p, o, Config(lo, h), Execute(s, o, h, fuel), lo + StmtSize(s), ex, inLoop, fuel, pc, k)
    decreases fuel, s, 0
  {
    hide Has, Step, Reaches, StmtCode, CondCode, StmtSize, CondSize, CondValue;
    var m := lo + CondSize(c);
    IfThenShape(c, t, lo, ex);
    HasParts(p, lo, CondCode(c, lo, To(m), ex.next), StmtCode(t, m, ex));
    var k1 := CondRuns(p, o, c, lo, m, ex.next.id, h);
    var (v, h1) := CondValue(c, o, h);
    k, pc := k1, ex.next.id;
    if v {
      var k2;
      k2, pc := StmtRuns(p, o, t, m, ex, inLoop, h1, fuel);
      ReachesOn(p, o, Config(lo, h), Config(m, h1), Config(pc, Execute(t, o, h1, fuel).hist), k1, k2);
      k := k1 + k2;
    }
  }

  lemma {:induction false} BlockRuns(p: Program, o: Oracle, s: Stmt, ss: seq<Stmt>, lo: nat, ex: Exits, inLoop: bool,
                                     h: seq<nat>, fuel: nat)
    returns (k: nat, pc: nat)
    requires s == Block(ss) && Has(p, lo, StmtCode(s, lo, ex)) && Closed(ex, inLoop) && Nested(s, inLoop)
    ensures Matches(p, o, Config(lo, h), Execute(s, o, h, fuel), lo + StmtSize(s), ex, inLoop, fuel, pc, k)
    decreases fuel, s, 0
  {
    hide Has, Step, Reaches, StmtCode, ItemsCode, StmtSize, ItemsSize;
    BlockShape(ss, lo, ex);
    var inner := ItemsCode(ss, lo + 1, ex);
    HasParts(p, lo, [Mark] + inner, [Mark]);
    HasParts(p, lo, [Mark], inner);
    MarkRuns(p, o, lo, h);
    var k1;
    k1, pc := ItemsRun(p, o, ss, lo + 1, ex, inLoop, h, fuel);
    var r := ExecuteAll(ss, o, h, fuel);
    assert Execute(s, o, h, fuel) == r;
    ReachesOn(p, o, Config(lo, h), Config(lo + 1, h), Config(pc, r.hist), 1, k1);
    k := 1 + k1;
    if r.Done? && r.outcome.Normal? && pc != ex.next.id {
      MarkRuns(p, o, pc, r.hist);
      ReachesOn(p, o, Config(lo, h), Config(pc, r.hist), Config(pc + 1, r.hist), k, 1);
      k, pc := k + 1, pc + 1;
    }
  }

  lemma {:induction false} IfElseRuns(p: Program, o: Oracle, s: Stmt, c: Cond, t: Stmt, u: Stmt, lo: nat, ex: Exits,
                                      inLoop: bool, h: seq<nat>, fuel: nat)
    returns (k: nat, pc: nat)
    requires s == IfElse(c, t, u) && Has(p, lo, StmtCode(s, lo, ex)) && Closed(ex, inLoop) && Nested(s, inLoop)
    ensures Matches(p, o, Config(lo, h), Execute(s, o, h, fuel), lo + StmtSize(s), ex, inLoop, fuel, pc, k)
    decreases fuel, s, 0
  {
    hide Has, Step, Reaches, StmtCode, CondCode, StmtSize, CondSize, CondValue;
    var m := lo + CondSize(c);
    var j := m + StmtSize(t);
    IfElseShape(c, t, u, lo, ex);
    var a, b, d := CondCode(c, lo, To(m), To(j + 1)), StmtCode(t, m, ex), StmtCode(u, j + 1, ex);
    HasParts(p, lo, a + b, [Jump(ex.next)] + d);
    HasParts(p, lo, a, b);
    HasParts(p, j, [Jump(ex.next)], d);
    var k1 := CondRuns(p, o, c, lo, m, j + 1, h);
    var (v, h1) := CondValue(c, o, h);
    var k2;
    if v {
      k2, pc := StmtRuns(p, o, t, m, ex, inLoop, h1, fuel);
      var r := Execute(t, o, h1, fuel);
      ReachesOn(p, o, Config(lo, h), Config(m, h1), Config(pc, r.hist), k1, k2);
      k := k1 + k2;
      if r.Done? && r.outcome.Normal? && pc != ex.next.id {
        JumpRuns(p, o, j, ex.next, r.hist);
        ReachesOn(p, o, Config(lo, h), Config(pc, r.hist), Config(ex.next.id, r.hist), k, 1);
        k, pc := k + 1, ex.next.id;
      }
    } else {
      k2, pc := StmtRuns(p, o, u, j + 1, ex, inLoop, h1, fuel);
      ReachesOn(p, o, Config(lo, h), Config(j + 1, h1), Config(pc, Execute(u, o, h1, fuel).hist), k1, k2);
      k := k1 + k2;
    }
  }

  lemma {:induction false} WhileRuns(p: Program, o: Oracle, s: Stmt, c: Cond, t: Stmt, lo: nat, ex: Exits, inLoop: bool,
                                     h: seq<nat>, fuel: nat)
    returns (k: nat, pc: nat)
    requires s == While(c, t) && Has(p, lo, StmtCode(s, lo, ex)) && Closed(ex, inLoop) && Nested(s, inLoop) && fuel > 0
    ensures Matches(p, o, Config(lo, h), Execute(s, o, h, fuel), lo + StmtSize(s), ex, inLoop, fuel, pc, k)
    decreases fuel, s, 0
  {
    hide Has, Step, Reaches, StmtCode, CondCode, StmtSize, CondSize, CondValue;
    var m := lo + CondSize(c);
    var j := m + StmtSize(t);
    WhileShape(c, t, lo, ex);
    var inner := Exits(To(lo), ex.next, lo, ex.ret);
    HasParts(p, lo, CondCode(c, lo, To(m), ex.next) + StmtCode(t, m, inner), [Jump(To(lo))]);
    HasParts(p, lo, CondCode(c, lo, To(m), ex.next), StmtCode(t, m, inner));
    var k1 := CondRuns(p, o, c, lo, m, ex.next.id, h);
    var (v, h1) := CondValue(c, o, h);
    k, pc := k1, ex.next.id;
    if v {
      var k2;
      k2, pc := StmtRuns(p, o, t, m, inner, true, h1, fuel - 1);
      var r := Execute(t, o, h1, fuel - 1);
      ReachesOn(p, o, Config(lo, h), Config(m, h1), Config(pc, r.hist), k1, k2);
      k := k1 + k2;
      if r.Done? && (r.outcome.Normal? || r.outcome.Continued?) {
        if pc != lo {
          JumpRuns(p, o, j, To(lo), r.hist);
          ReachesOn(p, o, Config(lo, h), Config(pc, r.hist), Config(lo, r.hist), k, 1);
          k := k + 1;
        }
        var k3, pc3 := StmtRuns(p, o, s, lo, ex, inLoop, r.hist, fuel - 1);
        ReachesOn(p, o, Config(lo, h), Config(lo, r.hist), Config(pc3, Execute(s, o, r.hist, fuel - 1).hist), k, k3);
        k, pc := k + k3, pc3;
      }
    }
  }

  lemma {:induction false} ItemsRun(p: Program, o: Oracle, ss: seq<Stmt>, lo: nat, ex: Exits, inLoop: bool, h: seq<nat>,
                                    fuel: nat)
    returns (k: nat, pc: nat)
    requires Has(p, lo, ItemsCode(ss, lo, ex)) && Closed(ex, inLoop) && AllNested(ss, inLoop)
    ensures Matches(p, o, Config(lo, h), ExecuteAll(ss, o, h, fuel), lo + ItemsSize(ss), ex, inLoop, fuel, pc, k)
    decreases fuel, ss, 1
  {
    hide *;
    if ss == [] {
      NoItemsRun(p, o, lo, ex, inLoop, h, fuel);
      k, pc := 0, lo;
    } else {
      var m := lo + StmtSize(ss[0]);
      var first := ItemExits(ss, lo, ex);
      ItemsShape(ss, lo, ex);
      ItemsMeaning(ss, o, h, fuel, inLoop);
      HasParts(p, lo, StmtCode(ss[0], lo, first), ItemsCode(ss[1..], m, ex));
      ItemClosed(ss, lo, ex, inLoop);
      var r := Execute(ss[0], o, h, fuel);
      k, pc := StmtRuns(p, o, ss[0], lo, first, inLoop, h, fuel);
      if r.Done? && r.outcome.Normal? && |ss| > 1 {
        var k2, pc2 := ItemsRun(p, o, ss[1..], m, ex, inLoop, r.hist, fuel);
        MatchesOn(p, o, Config(lo, h), r, m, first, pc, k, ExecuteAll(ss[1..], o, r.hist, fuel), m + ItemsSize(ss[1..]),
          ex, inLoop, fuel, pc2, k2);
        k, pc := k + k2, pc2;
      } else {
        if |ss| == 1 {
          LastItem(ss, o, r.hist, fuel, m, ex);
        }
        MatchesLast(p, o, Config(lo, h), r, m, first, m + ItemsSize(ss[1..]), ex, inLoop, fuel, pc, k);
      }
    }
  }

  lemma NoItemsRun(p: Program, o: Oracle, lo: nat, ex: Exits, inLoop: bool, h: seq<nat>, fuel: nat)
    requires Closed(ex, inLoop)
    ensures Matches(p, o, Config(lo, h), ExecuteAll([], o, h, fuel), lo + ItemsSize([]), ex, inLoop, fuel, lo, 0)
  {
  }

  lemma ItemClosed(ss: seq<Stmt>, lo: nat, ex: Exits, inLoop: bool)
    requires ss != [] && Closed(ex, inLoop)
    ensures var first := ItemExits(ss, lo, ex);
            Closed(first, inLoop) && first.brk == ex.brk && first.cont == ex.cont && first.ret == ex.ret
            && (|ss| == 1 ==> first == ex) && (|ss| > 1 ==> first.next == To(lo + StmtSize(ss[0])))
  {
  }

  lemma ItemsMeaning(ss: seq<Stmt>, o: Oracle, h: seq<nat>, fuel: nat, inLoop: bool)
    requires ss != []
    ensures var r := Execute(ss[0], o, h, fuel);
            ExecuteAll(ss, o, h, fuel) == if r.Done? && r.outcome.Normal? then ExecuteAll(ss[1..], o, r.hist, fuel)
              else r
    ensures AllNested(ss, inLoop) ==> Nested(ss[0], inLoop) && AllNested(ss[1..], inLoop)
  {
  }

  lemma MatchesOn(p: Program, o: Oracle, start: Config, r: Result, m: nat, first: Exits, pc: nat, k: nat,
                  r2: Result, end: nat, ex: Exits, inLoop: bool, fuel: nat, pc2: nat, k2: nat)
    requires Closed(first, inLoop) && Closed(ex, inLoop) && first.next == To(m) && r.Done? && r.outcome.Normal?
    requires Matches(p, o, start, r, m, first, inLoop, fuel, pc, k)
    requires Matches(p, o, Config(m, r.hist), r2, end, ex, inLoop, fuel, pc2, k2)
    ensures Matches(p, o, start, r2, end, ex, inLoop, fuel, pc2, k + k2)
  {
    hide Reaches, Step;
    ReachesOn(p, o, start, Config(m, r.hist), Config(pc2, r2.hist), k, k2);
  }

  lemma MatchesLast(p: Program, o: Oracle, start: Config, r: Result, m: nat, first: Exits, end: nat, ex: Exits,
                    inLoop: bool, fuel: nat, pc: nat, k: nat)
    requires Closed(first, inLoop) && Closed(ex, inLoop) && first.brk == ex.brk && first.cont == ex.cont
    requires first.ret == ex.ret
    requires r.Done? && r.outcome.Normal? ==> first == ex && end == m
    requires Matches(p, o, start, r, m, first, inLoop, fuel, pc, k)
    ensures Matches(p, o, start, r, end, ex, inLoop, fuel, pc, k)
  {
    hide Reaches, Step;
  }

  lemma LastItem(ss: seq<Stmt>, o: Oracle, h: seq<nat>, fuel: nat, m: nat, ex: Exits)
    requires |ss| == 1
    ensures ItemsSize(ss[1..]) == 0 && ExecuteAll(ss[1..], o, h, fuel) == Done(Normal, h)
  {
    assert ss[1..] == [];
    NoItems(m, ex);
  }

  // ---------- functions ----------

  /** The machine started at lo stops with the history h. */
  ghost predicate Stops(p: Program, o: Oracle, lo: nat, h: seq<nat>) {
    exists k, pc: nat :: Reaches(p, o, Config(lo, []), Config(pc, h), k) && Step(p, o, Config(pc, h)) == Halt
  }

  ghost predicate Ran(p: Program, o: Oracle, lo: nat, h: seq<nat>, atLeast: nat) {
    exists k, pc: nat :: k >= atLeast && Reaches(p, o, Config(lo, []), Config(pc, h), k)
  }

  ghost predicate SourceStops(prologue: seq<nat>, body: Stmt, epilogue: seq<nat>, o: Oracle, h: seq<nat>) {
    exists fuel: nat :: Execute(body, o, prologue, fuel).Done? && h == Execute(body, o, prologue, fuel).hist + epilogue
  }

  /** One direction, for runs that end and runs that do not. */
  lemma FunctionRuns(p: Program, o: Oracle, prologue: seq<nat>, body: Stmt, epilogue: seq<nat>, lo: nat, fuel: nat)
    requires Has(p, lo, FunctionCode(prologue, body, epilogue, lo)) && Nested(body, false)
    ensures var r := Execute(body, o, prologue, fuel);
            if r.Done? then Stops(p, o, lo, r.hist + epilogue) else Ran(p, o, lo, r.hist, fuel)
  {
    hide Has, Step, Reaches, StmtCode, StmtSize, Execute;
    var m := lo + 1 + |prologue|;
    var end := m + StmtSize(body);
    var ex := Exits(To(end), Empty, 0, To(end));
    var r := Execute(body, o, prologue, fuel);
    FunctionParts(p, prologue, body, epilogue, lo);
    var start := Config(lo, []);
    MarkRuns(p, o, lo, []);
    StepsRun(p, o, prologue, lo + 1, []);
    assert [] + prologue == prologue;
    ReachesOn(p, o, start, Config(lo + 1, []), Config(m, prologue), 1, |prologue|);
    var k, pc := StmtRuns(p, o, body, m, ex, false, prologue, fuel);
    ReachesOn(p, o, start, Config(m, prologue), Config(pc, r.hist), 1 + |prologue|, k);
    if r.Done? {
      assert pc == end;
      StepsRun(p, o, epilogue, end, r.hist);
      ReachesOn(p, o, start, Config(end, r.hist), Config(end + |epilogue|, r.hist + epilogue), 1 + |prologue| + k,
        |epilogue|);
      ExitHalts(p, o, end + |epilogue|, r.hist + epilogue);
    }
  }

  lemma ExitHalts(p: Program, o: Oracle, lo: nat, h: seq<nat>)
    requires Has(p, lo, [Exit])
    ensures Step(p, o, Config(lo, h)) == Halt
  {
    HasOne(p, lo, Exit);
  }

  lemma FunctionParts(p: Program, prologue: seq<nat>, body: Stmt, epilogue: seq<nat>, lo: nat)
    requires Has(p, lo, FunctionCode(prologue, body, epilogue, lo))
    ensures var m := lo + 1 + |prologue|; var end := m + StmtSize(body);
            && Has(p, lo, [Mark]) && Has(p, lo + 1, Steps(prologue))
            && Has(p, m, StmtCode(body, m, Exits(To(end), Empty, 0, To(end))))
            && Has(p, end, Steps(epilogue)) && Has(p, end + |epilogue|, [Exit])
  {
    hide Has, StmtCode, StmtSize;
    var m := lo + 1 + |prologue|;
    var end := m + StmtSize(body);
    var whole := StmtCode(body, m, Exits(To(end), Empty, 0, To(end)));
    HasParts(p, lo, [Mark] + Steps(prologue) + whole + Steps(epilogue), [Exit]);
    HasParts(p, lo, [Mark] + Steps(prologue) + whole, Steps(epilogue));
    HasParts(p, lo, [Mark] + Steps(prologue), whole);
    HasParts(p, lo, [Mark], Steps(prologue));
  }

  /** Both directions: the code stops exactly when the source does, after the same steps. */
  lemma SameBehaviour(p: Program, o: Oracle, prologue: seq<nat>, body: Stmt, epilogue: seq<nat>, lo: nat, h: seq<nat>)
    requires Has(p, lo, FunctionCode(prologue, body, epilogue, lo)) && Nested(body, false)
    ensures Stops(p, o, lo, h) <==> SourceStops(prologue, body, epilogue, o, h)
  {
    hide Has, FunctionCode, Step, Reaches, Execute, Nested;
    if SourceStops(prologue, body, epilogue, o, h) {
      var fuel: nat :| Execute(body, o, prologue, fuel).Done? && h == Execute(body, o, prologue, fuel).hist + epilogue;
      FunctionRuns(p, o, prologue, body, epilogue, lo, fuel);
    }
    if Stops(p, o, lo, h) {
      var k: nat, pc: nat :| Reaches(p, o, Config(lo, []), Config(pc, h), k) && Step(p, o, Config(pc, h)) == Halt;
      FunctionRuns(p, o, prologue, body, epilogue, lo, k + 1);
      var r := Execute(body, o, prologue, k + 1);
      if r.Working? {
        var k2: nat, pc2: nat :| k2 >= k + 1 && Reaches(p, o, Config(lo, []), Config(pc2, r.hist), k2);
        StopsOnce(p, o, Config(lo, []), Config(pc, h), Config(pc2, r.hist), k, k2);
      } else {
        var h2 := r.hist + epilogue;
        var k2: nat, pc2: nat :| Reaches(p, o, Config(lo, []), Config(pc2, h2), k2)
          && Step(p, o, Config(pc2, h2)) == Halt;
        StopsOnce(p, o, Config(lo, []), Config(pc, h), Config(pc2, h2), k, k2);
      }
    }
  }

  /** The machine is deterministic: no run goes on after a halt, and there is one halt. */
  lemma {:induction false} StopsOnce(p: Program, o: Oracle, c: Config, d: Config, e: Config, k: nat, m: nat)
    requires Reaches(p, o, c, d, k) && Step(p, o, d) == Halt && Reaches(p, o, c, e, m)
    ensures m <= k && (Step(p, o, e) == Halt ==> d == e)
    decreases k
  {
    hide Step;
    if k > 0 && m > 0 {
      StopsOnce(p, o, Step(p, o, c).next, d, e, k - 1, m - 1);
    }
  }

  // ---------- every hole is filled ----------

  predicate InCode(hole: Hole, lo: nat, hi: nat) {
    hole.To? && lo <= hole.id < hi
  }

  /** All jumps lead to instructions with ids from lo to hi. */
  ghost predicate AllFilled(code: seq<Insn>, lo: nat, hi: nat) {
    forall i :: 0 <= i < |code| ==>
      match code[i]
      case Jump(to) => InCode(to, lo, hi)
      case Branch(_, _, _, yes, no) => InCode(yes, lo, hi) && InCode(no, lo, hi)
      case _ => true
  }

  lemma FilledConcat(a: seq<Insn>, b: seq<Insn>, lo: nat, hi: nat)
    requires AllFilled(a, lo, hi) && AllFilled(b, lo, hi)
    ensures AllFilled(a + b, lo, hi)
  {
  }

  lemma FilledOne(insn: Insn, lo: nat, hi: nat)
    requires match insn
             case Jump(to) => InCode(to, lo, hi)
             case Branch(_, _, _, yes, no) => InCode(yes, lo, hi) && InCode(no, lo, hi)
             case _ => true
    ensures AllFilled([insn], lo, hi)
  {
  }

  lemma FilledSteps(steps: seq<nat>, lo: nat, hi: nat)
    ensures AllFilled(Steps(steps), lo, hi)
  {
  }

  lemma FilledCmp(pre: seq<nat>, rel: Rel, a: Operand, b: Operand, yes: Hole, no: Hole, lo: nat, hi: nat)
    requires InCode(yes, lo, hi) && InCode(no, lo, hi)
    ensures AllFilled(Steps(pre) + [Cmp(rel, a, b, yes, no)], lo, hi)
  {
    FilledSteps(pre, lo, hi);
    FilledOne(Cmp(rel, a, b, yes, no), lo, hi);
    FilledConcat(Steps(pre), [Cmp(rel, a, b, yes, no)], lo, hi);
  }

  lemma {:induction false} CondFilled(c: Cond, at: nat, yes: Hole, no: Hole, lo: nat, hi: nat)
    requires InCode(yes, lo, hi) && InCode(no, lo, hi) && lo <= at && at + CondSize(c) < hi
    ensures AllFilled(CondCode(c, at, yes, no), lo, hi)
  {
    hide AllFilled, Cmp;
    match c
    case Operand(pre, a) =>
      FilledCmp(pre, Ne, a, Literal(0), yes, no, lo, hi);
    case Compare(pre, rel, a, b) =>
      FilledCmp(pre, Ne, ValueOf(Operand([], Literal(0))), Literal(0), yes, no, lo, hi);
      if Folded(a, b) {
        FilledCmp(pre, Ne, ValueOf(c), Literal(0), yes, no, lo, hi);
      } else {
        FilledCmp(pre, rel, a, b, yes, no, lo, hi);
      }
    case And(l, r) =>
      var m := at + CondSize(l);
      CondFilled(l, at, To(m), no, lo, hi);
      CondFilled(r, m, yes, no, lo, hi);
      FilledConcat(CondCode(l, at, To(m), no), CondCode(r, m, yes, no), lo, hi);
    case Or(l, r) =>
      var m := at + CondSize(l);
      CondFilled(l, at, yes, To(m), lo, hi);
      CondFilled(r, m, yes, no, lo, hi);
      FilledConcat(CondCode(l, at, yes, To(m)), CondCode(r, m, yes, no), lo, hi);
    case Not(d) =>
      if IsValue(d) {
        FilledCmp(d.pre, Eq, ValueOf(d), Literal(0), yes, no, lo, hi);
      } else {
        CondFilled(d, at, no, yes, lo, hi);
      }
  }

  ghost predicate ExitsIn(ex: Exits, inLoop: bool, lo: nat, hi: nat) {
    InCode(ex.next, lo, hi) && InCode(ex.ret, lo, hi) && (inLoop ==> InCode(ex.brk, lo, hi) && lo <= ex.cont < hi)
  }

  lemma {:induction false} StmtFilled(s: Stmt, at: nat, ex: Exits, inLoop: bool, lo: nat, hi: nat)
    requires Nested(s, inLoop) && ExitsIn(ex, inLoop, lo, hi) && lo <= at && at + StmtSize(s) < hi
    ensures AllFilled(StmtCode(s, at, ex), lo, hi)
    decreases s
  {
    hide AllFilled, StmtCode, CondCode, ItemsCode, StmtSize, CondSize, ItemsSize;
    match s
    case IfThen(c, t) =>
      var m := at + CondSize(c);
      IfThenShape(c, t, at, ex);
      CondFilled(c, at, To(m), ex.next, lo, hi);
      StmtFilled(t, m, ex, inLoop, lo, hi);
      FilledConcat(CondCode(c, at, To(m), ex.next), StmtCode(t, m, ex), lo, hi);
    case IfElse(c, t, u) =>
      var m := at + CondSize(c);
      var j := m + StmtSize(t);
      IfElseShape(c, t, u, at, ex);
      CondFilled(c, at, To(m), To(j + 1), lo, hi);
      StmtFilled(t, m, ex, inLoop, lo, hi);
      StmtFilled(u, j + 1, ex, inLoop, lo, hi);
      FilledOne(Jump(ex.next), lo, hi);
      FilledConcat(CondCode(c, at, To(m), To(j + 1)), StmtCode(t, m, ex), lo, hi);
      FilledConcat([Jump(ex.next)], StmtCode(u, j + 1, ex), lo, hi);
      FilledConcat(CondCode(c, at, To(m), To(j + 1)) + StmtCode(t, m, ex), [Jump(ex.next)] + StmtCode(u, j + 1, ex), lo,
        hi);
    case While(c, t) =>
      var m := at + CondSize(c);
      var inner := Exits(To(at), ex.next, at, ex.ret);
      WhileShape(c, t, at, ex);
      CondFilled(c, at, To(m), ex.next, lo, hi);
      StmtFilled(t, m, inner, true, lo, hi);
      FilledOne(Jump(To(at)), lo, hi);
      FilledConcat(CondCode(c, at, To(m), ex.next), StmtCode(t, m, inner), lo, hi);
      FilledConcat(CondCode(c, at, To(m), ex.next) + StmtCode(t, m, inner), [Jump(To(at))], lo, hi);
    case Block(ss) =>
      BlockShape(ss, at, ex);
      ItemsFilled(ss, at + 1, ex, inLoop, lo, hi);
      FilledOne(Mark, lo, hi);
      FilledConcat([Mark], ItemsCode(ss, at + 1, ex), lo, hi);
      FilledConcat([Mark] + ItemsCode(ss, at + 1, ex), [Mark], lo, hi);
    case Return(steps) =>
      SimpleShape(s, at, ex);
      FilledSteps(steps, lo, hi);
      FilledOne(Jump(ex.ret), lo, hi);
      FilledConcat(Steps(steps), [Jump(ex.ret)], lo, hi);
    case Simple(steps) =>
      SimpleShape(s, at, ex);
      FilledSteps(steps, lo, hi);
    case Break =>
      SimpleShape(s, at, ex);
      FilledOne(Jump(ex.brk), lo, hi);
    case Continue =>
      SimpleShape(s, at, ex);
      FilledOne(Jump(To(ex.cont)), lo, hi);
  }

  lemma {:induction false} ItemsFilled(ss: seq<Stmt>, at: nat, ex: Exits, inLoop: bool, lo: nat, hi: nat)
    requires AllNested(ss, inLoop) && ExitsIn(ex, inLoop, lo, hi) && lo <= at && at + ItemsSize(ss) < hi
    ensures AllFilled(ItemsCode(ss, at, ex), lo, hi)
    decreases ss
  {
    if ss != [] {
      hide AllFilled, StmtCode, ItemsCode, StmtSize, ItemsSize;
      var m := at + StmtSize(ss[0]);
      ItemsShape(ss, at, ex);
      StmtFilled(ss[0], at, ItemExits(ss, at, ex), inLoop, lo, hi);
      ItemsFilled(ss[1..], m, ex, inLoop, lo, hi);
      FilledConcat(StmtCode(ss[0], at, ItemExits(ss, at, ex)), ItemsCode(ss[1..], m, ex), lo, hi);
    }
  }

  /** In the finished function every hole names an instruction of the function. */
  lemma FunctionFilled(prologue: seq<nat>, body: Stmt, epilogue: seq<nat>, lo: nat)
    requires Nested(body, false)
    ensures AllFilled(FunctionCode(prologue, body, epilogue, lo), lo, lo + |FunctionCode(prologue, body, epilogue, lo)|)
  {
    hide AllFilled, StmtCode, StmtSize;
    var hi := lo + |FunctionCode(prologue, body, epilogue, lo)|;
    var m := lo + 1 + |prologue|;
    var end := m + StmtSize(body);
    var ex := Exits(To(end), Empty, 0, To(end));
    FilledOne(Mark, lo, hi);
    FilledOne(Exit, lo, hi);
    FilledSteps(prologue, lo, hi);
    FilledSteps(epilogue, lo, hi);
    StmtFilled(body, m, ex, false, lo, hi);
    FilledConcat([Mark], Steps(prologue), lo, hi);
    FilledConcat([Mark] + Steps(prologue), StmtCode(body, m, ex), lo, hi);
    FilledConcat([Mark] + Steps(prologue) + StmtCode(body, m, ex), Steps(epilogue), lo, hi);
    FilledConcat([Mark] + Steps(prologue) + StmtCode(body, m, ex) + Steps(epilogue), [Exit], lo, hi);
  }

  /** A function from source to running code. */
  method Compile(prologue: seq<nat>, body: Stmt, epilogue: seq<nat>) returns (ok: bool, p: Program)
    ensures ok <==> Nested(body, false)
    ensures ok ==> AllFilled(p.code, p.base, p.base + |p.code|)
    ensures ok ==> forall o: Oracle, h: seq<nat> :: Stops(p, o, p.base, h) <==>
              SourceStops(prologue, body, epilogue, o, h)
    ensures ok ==> forall o: Oracle, fuel: nat :: Execute(body, o, prologue, fuel).Working? ==>
              Ran(p, o, p.base, Execute(body, o, prologue, fuel).hist, fuel)
  {
    hide FunctionCode, Nested, Stops, SourceStops, Ran, Execute, AllFilled;
    var gen := new Generator();
    ok := gen.GenFunction(prologue, body, epilogue);
    p := Program(gen.base, gen.code);
    if ok {
      assert p.code == FunctionCode(prologue, body, epilogue, p.base);
      FunctionFilled(prologue, body, epilogue, p.base);
      assert Has(p, p.base, FunctionCode(prologue, body, epilogue, p.base));
      forall o: Oracle, h: seq<nat> ensures Stops(p, o, p.base, h) <==> SourceStops(prologue, body, epilogue, o, h) {
        SameBehaviour(p, o, prologue, body, epilogue, p.base, h);
      }
      forall o: Oracle, fuel: nat | Execute(body, o, prologue, fuel).Working?
        ensures Ran(p, o, p.base, Execute(body, o, prologue, fuel).hist, fuel)
      {
        FunctionRuns(p, o, prologue, body, epilogue, p.base, fuel);
      }
    }
  }
}
