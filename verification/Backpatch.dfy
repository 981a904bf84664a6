/** Jump code by backpatching (IR/IRGenerator.c): conditions and statements, the linear
    code they become, and the lists of holes that are filled later. */
module Backpatch {
  import opened Words

  // ---------- source ----------

  datatype Operand = Variable(x: nat) | Literal(n: int)

  /** `pre` are the instructions that compute the operands. An operand alone stands for
      its comparison with zero. */
  datatype Cond =
    | Operand(pre: seq<nat>, a: Operand)
    | Compare(pre: seq<nat>, rel: Rel, a: Operand, b: Operand)
    | And(left: Cond, right: Cond)
    | Or(left: Cond, right: Cond)
    | Not(arg: Cond)

  datatype Stmt =
    | Simple(steps: seq<nat>)
    | IfThen(cond: Cond, body: Stmt)
    | IfElse(cond: Cond, body: Stmt, other: Stmt)
    | While(cond: Cond, body: Stmt)
    | Break
    | Continue
    | Return(steps: seq<nat>)
    | Block(items: seq<Stmt>)

  /** break and continue stand inside a loop. */
  predicate Nested(s: Stmt, inLoop: bool) {
    match s
    case Simple(_) => true
    case IfThen(_, t) => Nested(t, inLoop)
    case IfElse(_, t, u) => Nested(t, inLoop) && Nested(u, inLoop)
    case While(_, t) => Nested(t, true)
    case Break => inLoop
    case Continue => inLoop
    case Return(_) => true
    case Block(ss) => AllNested(ss, inLoop)
  }

  predicate AllNested(ss: seq<Stmt>, inLoop: bool) {
    ss == [] || (Nested(ss[0], inLoop) && AllNested(ss[1..], inLoop))
  }

  // ---------- linear code ----------

  datatype Hole = Empty | To(id: nat)

  datatype Insn =
    | Do(step: nat)
    | Mark
    | Jump(to: Hole)
    | Branch(rel: Rel, a: Operand, b: Operand, yes: Hole, no: Hole)
    | Exit

  /** Which hole of which instruction (patch_info). */
  datatype Patch = Patch(at: nat, isTrue: bool)

  function Steps(steps: seq<nat>): (r: seq<Insn>)
    ensures |r| == |steps|
  {
    seq(|steps|, i requires 0 <= i < |steps| => Do(steps[i]))
  }

  predicate Folded(a: Operand, b: Operand) {
    a.Literal? && b.Literal?
  }

  /** create_cmp_insn: a jump when both operands are constants, else a branch. */
  function Cmp(rel: Rel, a: Operand, b: Operand, yes: Hole, no: Hole): Insn {
    if Folded(a, b) then Jump(if Holds(rel, a.n, b.n) then yes else no) else Branch(rel, a, b, yes, no)
  }

  function CmpTrue(rel: Rel, a: Operand, b: Operand, at: nat): seq<Patch> {
    if Folded(a, b) && !Holds(rel, a.n, b.n) then [] else [Patch(at, true)]
  }

  function CmpFalse(rel: Rel, a: Operand, b: Operand, at: nat): seq<Patch> {
    if Folded(a, b) && Holds(rel, a.n, b.n) then [] else [Patch(at, false)]
  }

  /** A condition that its visitor leaves as a value: the parent compares it with zero. */
  predicate IsValue(c: Cond) {
    c.Operand? || (c.Compare? && Folded(c.a, c.b))
  }

  function ValueOf(c: Cond): Operand
    requires IsValue(c)
  {
    if c.Operand? then c.a else Literal(if Holds(c.rel, c.a.n, c.b.n) then 1 else 0)
  }

  function CondSize(c: Cond): (r: nat)
    ensures r >= 1
  {
    match c
    case Operand(pre, _) => |pre| + 1
    case Compare(pre, _, _, _) => |pre| + 1
    case And(l, r) => CondSize(l) + CondSize(r)
    case Or(l, r) => CondSize(l) + CondSize(r)
    case Not(d) => CondSize(d)
  }

  /** The code of a condition that starts at id lo and goes to `yes` or `no`. */
  function CondCode(c: Cond, lo: nat, yes: Hole, no: Hole): (r: seq<Insn>)
    ensures |r| == CondSize(c)
  {
    match c
    case Operand(pre, a) => Steps(pre) + [Cmp(Ne, a, Literal(0), yes, no)]
    case Compare(pre, rel, a, b) =>
      if Folded(a, b) then Steps(pre) + [Cmp(Ne, ValueOf(c), Literal(0), yes, no)]
      else Steps(pre) + [Cmp(rel, a, b, yes, no)]
    case And(l, r) => CondCode(l, lo, To(lo + CondSize(l)), no) + CondCode(r, lo + CondSize(l), yes, no)
    case Or(l, r) => CondCode(l, lo, yes, To(lo + CondSize(l))) + CondCode(r, lo + CondSize(l), yes, no)
    case Not(d) =>
      if IsValue(d) then Steps(d.pre) + [Cmp(Eq, ValueOf(d), Literal(0), yes, no)]
      else CondCode(d, lo, no, yes)
  }

  function TrueList(c: Cond, lo: nat): seq<Patch> {
    match c
    case Operand(pre, a) => CmpTrue(Ne, a, Literal(0), lo + |pre|)
    case Compare(pre, rel, a, b) =>
      if Folded(a, b) then CmpTrue(Ne, ValueOf(c), Literal(0), lo + |pre|) else CmpTrue(rel, a, b, lo + |pre|)
    case And(l, r) => TrueList(r, lo + CondSize(l))
    case Or(l, r) => TrueList(l, lo) + TrueList(r, lo + CondSize(l))
    case Not(d) => if IsValue(d) then CmpTrue(Eq, ValueOf(d), Literal(0), lo + |d.pre|) else FalseList(d, lo)
  }

  function FalseList(c: Cond, lo: nat): seq<Patch> {
    match c
    case Operand(pre, a) => CmpFalse(Ne, a, Literal(0), lo + |pre|)
    case Compare(pre, rel, a, b) =>
      if Folded(a, b) then CmpFalse(Ne, ValueOf(c), Literal(0), lo + |pre|) else CmpFalse(rel, a, b, lo + |pre|)
    case And(l, r) => FalseList(l, lo) + FalseList(r, lo + CondSize(l))
    case Or(l, r) => FalseList(r, lo + CondSize(l))
    case Not(d) => if IsValue(d) then CmpFalse(Eq, ValueOf(d), Literal(0), lo + |d.pre|) else TrueList(d, lo)
  }

  function StmtSize(s: Stmt): nat {
    match s
    case Simple(steps) => |steps|
    case IfThen(c, t) => CondSize(c) + StmtSize(t)
    case IfElse(c, t, u) => CondSize(c) + StmtSize(t) + 1 + StmtSize(u)
    case While(c, t) => CondSize(c) + StmtSize(t) + 1
    case Break => 1
    case Continue => 1
    case Return(steps) => |steps| + 1
    case Block(ss) => 1 + ItemsSize(ss) + 1
  }

  function ItemsSize(ss: seq<Stmt>): nat {
    if ss == [] then 0 else StmtSize(ss[0]) + ItemsSize(ss[1..])
  }

  /** Where control goes from a statement: to what comes next, out of the loop, to the
      loop's start, to the end of the function. */
  datatype Exits = Exits(next: Hole, brk: Hole, cont: nat, ret: Hole)

  /** The code of a statement that starts at id lo. */
  function StmtCode(s: Stmt, lo: nat, ex: Exits): (r: seq<Insn>)
    ensures |r| == StmtSize(s)
  {
    match s
    case Simple(steps) => Steps(steps)
    case IfThen(c, t) =>
      var m := lo + CondSize(c);
      CondCode(c, lo, To(m), ex.next) + StmtCode(t, m, ex)
    case IfElse(c, t, u) =>
      var m := lo + CondSize(c);
      var m2 := m + StmtSize(t) + 1;
      CondCode(c, lo, To(m), To(m2)) + StmtCode(t, m, ex) + ([Jump(ex.next)] + StmtCode(u, m2, ex))
    case While(c, t) =>
      var m := lo + CondSize(c);
      CondCode(c, lo, To(m), ex.next) + StmtCode(t, m, Exits(To(lo), ex.next, lo, ex.ret)) + [Jump(To(lo))]
    case Break => [Jump(ex.brk)]
    case Continue => [Jump(To(ex.cont))]
    case Return(steps) => Steps(steps) + [Jump(ex.ret)]
    case Block(ss) => [Mark] + ItemsCode(ss, lo + 1, ex) + [Mark]
  }

  function ItemsCode(ss: seq<Stmt>, lo: nat, ex: Exits): (r: seq<Insn>)
    ensures |r| == ItemsSize(ss)
  {
    if ss == [] then []
    else
      var m := lo + StmtSize(ss[0]);
      StmtCode(ss[0], lo, if |ss| == 1 then ex else ex.(next := To(m))) + ItemsCode(ss[1..], m, ex)
  }

  function NextList(s: Stmt, lo: nat): seq<Patch> {
    match s
    case Simple(_) => []
    case IfThen(c, t) => FalseList(c, lo) + NextList(t, lo + CondSize(c))
    case IfElse(c, t, u) =>
      var m := lo + CondSize(c);
      NextList(t, m) + NextList(u, m + StmtSize(t) + 1) + [Patch(m + StmtSize(t), true)]
    case While(c, t) => BreakList(t, lo + CondSize(c)) + FalseList(c, lo)
    case Break => []
    case Continue => []
    case Return(_) => []
    case Block(ss) => ItemsNext(ss, lo + 1)
  }

  function ItemsNext(ss: seq<Stmt>, lo: nat): seq<Patch> {
    if ss == [] then []
    else if |ss| == 1 then NextList(ss[0], lo)
    else ItemsNext(ss[1..], lo + StmtSize(ss[0]))
  }

  function BreakList(s: Stmt, lo: nat): seq<Patch> {
    match s
    case Simple(_) => []
    case IfThen(c, t) => BreakList(t, lo + CondSize(c))
    case IfElse(c, t, u) =>
      var m := lo + CondSize(c);
      BreakList(t, m) + BreakList(u, m + StmtSize(t) + 1)
    case While(_, _) => []
    case Break => [Patch(lo, true)]
    case Continue => []
    case Return(_) => []
    case Block(ss) => ItemsBreak(ss, lo + 1)
  }

  function ItemsBreak(ss: seq<Stmt>, lo: nat): seq<Patch> {
    if ss == [] then [] else BreakList(ss[0], lo) + ItemsBreak(ss[1..], lo + StmtSize(ss[0]))
  }

  function ReturnList(s: Stmt, lo: nat): seq<Patch> {
    match s
    case Simple(_) => []
    case IfThen(c, t) => ReturnList(t, lo + CondSize(c))
    case IfElse(c, t, u) =>
      var m := lo + CondSize(c);
      ReturnList(t, m) + ReturnList(u, m + StmtSize(t) + 1)
    case While(c, t) => ReturnList(t, lo + CondSize(c))
    case Break => []
    case Continue => []
    case Return(steps) => [Patch(lo + |steps|, true)]
    case Block(ss) => ItemsReturn(ss, lo + 1)
  }

  function ItemsReturn(ss: seq<Stmt>, lo: nat): seq<Patch> {
    if ss == [] then [] else ReturnList(ss[0], lo) + ItemsReturn(ss[1..], lo + StmtSize(ss[0]))
  }

  // ---------- filling holes ----------

  function FillInsn(insn: Insn, id: nat, list: seq<Patch>, x: Hole): Insn {
    match insn
    case Jump(to) => Jump(if Patch(id, true) in list || Patch(id, false) in list then x else to)
    case Branch(rel, a, b, yes, no) =>
      Branch(rel, a, b, if Patch(id, true) in list then x else yes, if Patch(id, false) in list then x else no)
    case _ => insn
  }

  /** The code from id lo on with the listed holes set to x. */
  function Fill(code: seq<Insn>, lo: nat, list: seq<Patch>, x: Hole): (r: seq<Insn>)
    ensures |r| == |code|
  {
    seq(|code|, i requires 0 <= i < |code| => FillInsn(code[i], lo + i, list, x))
  }

  ghost predicate Within(list: seq<Patch>, lo: nat, hi: nat) {
    forall p :: p in list ==> lo <= p.at < hi
  }

  lemma FillConcat(a: seq<Insn>, b: seq<Insn>, lo: nat, list: seq<Patch>, x: Hole)
    ensures Fill(a + b, lo, list, x) == Fill(a, lo, list, x) + Fill(b, lo + |a|, list, x)
  {
  }

  lemma FillElsewhere(a: seq<Insn>, lo: nat, list: seq<Patch>, x: Hole, from: nat, to: nat)
    requires Within(list, from, to) && (to <= lo || lo + |a| <= from)
    ensures Fill(a, lo, list, x) == a
  {
    forall i | 0 <= i < |a| ensures FillInsn(a[i], lo + i, list, x) == a[i] {
      assert Patch(lo + i, true) !in list && Patch(lo + i, false) !in list;
    }
  }

  /** Patches of another region do not matter. */
  lemma FillOwn(a: seq<Insn>, lo: nat, own: seq<Patch>, all: seq<Patch>, x: Hole)
    requires forall p: Patch :: lo <= p.at < lo + |a| ==> (p in own <==> p in all)
    ensures Fill(a, lo, all, x) == Fill(a, lo, own, x)
  {
    forall i | 0 <= i < |a| ensures FillInsn(a[i], lo + i, all, x) == FillInsn(a[i], lo + i, own, x) {
      assert Patch(lo + i, true) in own <==> Patch(lo + i, true) in all;
      assert Patch(lo + i, false) in own <==> Patch(lo + i, false) in all;
    }
  }

  lemma FillNothing(a: seq<Insn>, lo: nat, x: Hole)
    ensures Fill(a, lo, [], x) == a
  {
    FillElsewhere(a, lo, [], x, 0, 0);
  }

  lemma {:induction false} CondListsWithin(c: Cond, lo: nat)
    ensures Within(TrueList(c, lo), lo, lo + CondSize(c)) && Within(FalseList(c, lo), lo, lo + CondSize(c))
  {
    match c
    case And(l, r) =>
      CondListsWithin(l, lo);
      CondListsWithin(r, lo + CondSize(l));
    case Or(l, r) =>
      CondListsWithin(l, lo);
      CondListsWithin(r, lo + CondSize(l));
    case Not(d) =>
      CondListsWithin(d, lo);
    case _ =>
  }

  lemma {:induction false} NextWithin(s: Stmt, lo: nat)
    ensures Within(NextList(s, lo), lo, lo + StmtSize(s))
  {
    match s
    case IfThen(c, t) =>
      CondListsWithin(c, lo);
      NextWithin(t, lo + CondSize(c));
    case IfElse(c, t, u) =>
      NextWithin(t, lo + CondSize(c));
      NextWithin(u, lo + CondSize(c) + StmtSize(t) + 1);
    case While(c, t) =>
      CondListsWithin(c, lo);
      BreakWithin(t, lo + CondSize(c));
    case Block(ss) =>
      ItemsNextWithin(ss, lo + 1);
    case _ =>
  }

  lemma {:induction false} ItemsNextWithin(ss: seq<Stmt>, lo: nat)
    ensures Within(ItemsNext(ss, lo), lo, lo + ItemsSize(ss))
  {
    if ss != [] {
      NextWithin(ss[0], lo);
      ItemsNextWithin(ss[1..], lo + StmtSize(ss[0]));
    }
  }

  lemma {:induction false} BreakWithin(s: Stmt, lo: nat)
    ensures Within(BreakList(s, lo), lo, lo + StmtSize(s))
  {
    match s
    case IfThen(c, t) =>
      BreakWithin(t, lo + CondSize(c));
    case IfElse(c, t, u) =>
      BreakWithin(t, lo + CondSize(c));
      BreakWithin(u, lo + CondSize(c) + StmtSize(t) + 1);
    case Block(ss) =>
      ItemsBreakWithin(ss, lo + 1);
    case _ =>
  }

  lemma {:induction false} ItemsBreakWithin(ss: seq<Stmt>, lo: nat)
    ensures Within(ItemsBreak(ss, lo), lo, lo + ItemsSize(ss))
  {
    if ss != [] {
      BreakWithin(ss[0], lo);
      ItemsBreakWithin(ss[1..], lo + StmtSize(ss[0]));
    }
  }

  lemma {:induction false} ReturnWithin(s: Stmt, lo: nat)
    ensures Within(ReturnList(s, lo), lo, lo + StmtSize(s))
  {
    match s
    case IfThen(c, t) =>
      ReturnWithin(t, lo + CondSize(c));
    case IfElse(c, t, u) =>
      ReturnWithin(t, lo + CondSize(c));
      ReturnWithin(u, lo + CondSize(c) + StmtSize(t) + 1);
    case While(c, t) =>
      ReturnWithin(t, lo + CondSize(c));
    case Block(ss) =>
      ItemsReturnWithin(ss, lo + 1);
    case _ =>
  }

  lemma {:induction false} ItemsReturnWithin(ss: seq<Stmt>, lo: nat)
    ensures Within(ItemsReturn(ss, lo), lo, lo + ItemsSize(ss))
  {
    if ss != [] {
      ReturnWithin(ss[0], lo);
      ItemsReturnWithin(ss[1..], lo + StmtSize(ss[0]));
    }
  }

  lemma FillSteps(steps: seq<nat>, insn: Insn, lo: nat, list: seq<Patch>, x: Hole)
    ensures Fill(Steps(steps) + [insn], lo, list, x) == Steps(steps) + [FillInsn(insn, lo + |steps|, list, x)]
  {
  }

  /** Two pieces of code one after the other, the lists of both pieces joined. */
  lemma FillTwo(a: seq<Insn>, b: seq<Insn>, lo: nat, la: seq<Patch>, lb: seq<Patch>, x: Hole)
    requires Within(la, lo, lo + |a|) && Within(lb, lo + |a|, lo + |a| + |b|)
    ensures Fill(a + b, lo, la + lb, x) == Fill(a, lo, la, x) + Fill(b, lo + |a|, lb, x)
    ensures Fill(a + b, lo, lb + la, x) == Fill(a, lo, la, x) + Fill(b, lo + |a|, lb, x)
  {
    FillConcat(a, b, lo, la + lb, x);
    FillConcat(a, b, lo, lb + la, x);
    FillOwn(a, lo, la, la + lb, x);
    FillOwn(a, lo, la, lb + la, x);
    FillOwn(b, lo + |a|, lb, la + lb, x);
    FillOwn(b, lo + |a|, lb, lb + la, x);
  }

  /** ... the list of one piece only. */
  lemma FillOne(a: seq<Insn>, b: seq<Insn>, lo: nat, la: seq<Patch>, lb: seq<Patch>, x: Hole)
    requires Within(la, lo, lo + |a|) && Within(lb, lo + |a|, lo + |a| + |b|)
    ensures Fill(a + b, lo, la, x) == Fill(a, lo, la, x) + b
    ensures Fill(a + b, lo, lb, x) == a + Fill(b, lo + |a|, lb, x)
  {
    FillConcat(a, b, lo, la, x);
    FillConcat(a, b, lo, lb, x);
    FillElsewhere(b, lo + |a|, la, x, lo, lo + |a|);
    FillElsewhere(a, lo, lb, x, lo + |a|, lo + |a| + |b|);
  }

  ghost predicate CondFills(c: Cond, lo: nat, yes: Hole, no: Hole, x: Hole) {
    && Fill(CondCode(c, lo, yes, no), lo, TrueList(c, lo), x) == CondCode(c, lo, x, no)
    && Fill(CondCode(c, lo, yes, no), lo, FalseList(c, lo), x) == CondCode(c, lo, yes, x)
  }

  lemma LeafFills(c: Cond, lo: nat, yes: Hole, no: Hole, x: Hole)
    requires IsValue(c) || c.Compare? || (c.Not? && IsValue(c.arg))
    ensures CondFills(c, lo, yes, no, x)
  {
    hide Fill;
    var pre := if c.Not? then c.arg.pre else c.pre;
    var rel := if c.Not? then Eq else if IsValue(c) then Ne else c.rel;
    var a := if c.Not? then ValueOf(c.arg) else if IsValue(c) then ValueOf(c) else c.a;
    var b := if c.Not? || IsValue(c) then Literal(0) else c.b;
    assert CondCode(c, lo, yes, no) == Steps(pre) + [Cmp(rel, a, b, yes, no)];
    assert TrueList(c, lo) == CmpTrue(rel, a, b, lo + |pre|) && FalseList(c, lo) == CmpFalse(rel, a, b, lo + |pre|);
    FillSteps(pre, Cmp(rel, a, b, yes, no), lo, TrueList(c, lo), x);
    FillSteps(pre, Cmp(rel, a, b, yes, no), lo, FalseList(c, lo), x);
  }

  lemma AndCode(l: Cond, r: Cond, lo: nat, yes: Hole, no: Hole)
    ensures CondCode(And(l, r), lo, yes, no) ==
              CondCode(l, lo, To(lo + CondSize(l)), no) + CondCode(r, lo + CondSize(l), yes, no)
    ensures TrueList(And(l, r), lo) == TrueList(r, lo + CondSize(l))
    ensures FalseList(And(l, r), lo) == FalseList(l, lo) + FalseList(r, lo + CondSize(l))
  {
  }

  lemma AndFills(l: Cond, r: Cond, lo: nat, yes: Hole, no: Hole, x: Hole)
    requires CondFills(l, lo, To(lo + CondSize(l)), no, x) && CondFills(r, lo + CondSize(l), yes, no, x)
    ensures CondFills(And(l, r), lo, yes, no, x)
  {
    hide Fill, Within, CondCode, TrueList, FalseList, CondSize;
    AndCode(l, r, lo, yes, no);
    AndCode(l, r, lo, x, no);
    AndCode(l, r, lo, yes, x);
    var m := lo + CondSize(l);
    CondListsWithin(l, lo);
    CondListsWithin(r, m);
    FillTwo(CondCode(l, lo, To(m), no), CondCode(r, m, yes, no), lo, FalseList(l, lo), FalseList(r, m), x);
    FillOne(CondCode(l, lo, To(m), no), CondCode(r, m, yes, no), lo, FalseList(l, lo), TrueList(r, m), x);
  }

  lemma OrCode(l: Cond, r: Cond, lo: nat, yes: Hole, no: Hole)
    ensures CondCode(Or(l, r), lo, yes, no) ==
              CondCode(l, lo, yes, To(lo + CondSize(l))) + CondCode(r, lo + CondSize(l), yes, no)
    ensures TrueList(Or(l, r), lo) == TrueList(l, lo) + TrueList(r, lo + CondSize(l))
    ensures FalseList(Or(l, r), lo) == FalseList(r, lo + CondSize(l))
  {
  }

  lemma OrFills(l: Cond, r: Cond, lo: nat, yes: Hole, no: Hole, x: Hole)
    requires CondFills(l, lo, yes, To(lo + CondSize(l)), x) && CondFills(r, lo + CondSize(l), yes, no, x)
    ensures CondFills(Or(l, r), lo, yes, no, x)
  {
    hide Fill, Within, CondCode, TrueList, FalseList, CondSize;
    OrCode(l, r, lo, yes, no);
    OrCode(l, r, lo, x, no);
    OrCode(l, r, lo, yes, x);
    var m := lo + CondSize(l);
    CondListsWithin(l, lo);
    CondListsWithin(r, m);
    FillTwo(CondCode(l, lo, yes, To(m)), CondCode(r, m, yes, no), lo, TrueList(l, lo), TrueList(r, m), x);
    FillOne(CondCode(l, lo, yes, To(m)), CondCode(r, m, yes, no), lo, TrueList(l, lo), FalseList(r, m), x);
  }

  /** Filling the true list sets the goal of the condition when it holds, and the false
      list its goal when it does not. */
  lemma {:induction false} FillCond(c: Cond, lo: nat, yes: Hole, no: Hole, x: Hole)
    ensures Fill(CondCode(c, lo, yes, no), lo, TrueList(c, lo), x) == CondCode(c, lo, x, no)
    ensures Fill(CondCode(c, lo, yes, no), lo, FalseList(c, lo), x) == CondCode(c, lo, yes, x)
  {
    hide Fill, Cmp, CmpTrue, CmpFalse;
    match c
    case And(l, r) =>
      FillCond(l, lo, To(lo + CondSize(l)), no, x);
      FillCond(r, lo + CondSize(l), yes, no, x);
      AndFills(l, r, lo, yes, no, x);
    case Or(l, r) =>
      FillCond(l, lo, yes, To(lo + CondSize(l)), x);
      FillCond(r, lo + CondSize(l), yes, no, x);
      OrFills(l, r, lo, yes, no, x);
    case Not(d) =>
      if IsValue(d) {
        LeafFills(c, lo, yes, no, x);
      } else {
        FillCond(d, lo, no, yes, x);
      }
    case _ =>
      LeafFills(c, lo, yes, no, x);
  }
}
