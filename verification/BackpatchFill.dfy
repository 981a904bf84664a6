/** Filling the lists of a statement completes its code. */
module BackpatchFill {
  import opened Words
  import opened Backpatch

  // ---------- the pieces of each statement ----------

  lemma IfThenShape(c: Cond, t: Stmt, lo: nat, ex: Exits)
    ensures var s, m := IfThen(c, t), lo + CondSize(c);
            && StmtCode(s, lo, ex) == CondCode(c, lo, To(m), ex.next) + StmtCode(t, m, ex)
            && NextList(s, lo) == FalseList(c, lo) + NextList(t, m)
            && BreakList(s, lo) == BreakList(t, m) && ReturnList(s, lo) == ReturnList(t, m)
            && StmtSize(s) == CondSize(c) + StmtSize(t)
  {
    hide *;
    IfThenCode(c, t, lo, ex);
    IfThenLists(c, t, lo);
  }

  lemma IfThenCode(c: Cond, t: Stmt, lo: nat, ex: Exits)
    ensures var m := lo + CondSize(c);
            StmtCode(IfThen(c, t), lo, ex) == CondCode(c, lo, To(m), ex.next) + StmtCode(t, m, ex)
  {
    hide CondCode;
  }

  lemma IfThenLists(c: Cond, t: Stmt, lo: nat)
    ensures var s, m := IfThen(c, t), lo + CondSize(c);
            && NextList(s, lo) == FalseList(c, lo) + NextList(t, m)
            && BreakList(s, lo) == BreakList(t, m) && ReturnList(s, lo) == ReturnList(t, m)
            && StmtSize(s) == CondSize(c) + StmtSize(t)
  {
    hide CondCode, StmtCode, FalseList;
  }

  lemma IfElseShape(c: Cond, t: Stmt, u: Stmt, lo: nat, ex: Exits)
    ensures var s, m := IfElse(c, t, u), lo + CondSize(c);
            var j := m + StmtSize(t);
            && StmtCode(s, lo, ex) ==
                 (CondCode(c, lo, To(m), To(j + 1)) + StmtCode(t, m, ex)) + ([Jump(ex.next)] + StmtCode(u, j + 1, ex))
            && NextList(s, lo) == NextList(t, m) + NextList(u, j + 1) + [Patch(j, true)]
            && BreakList(s, lo) == BreakList(t, m) + BreakList(u, j + 1)
            && ReturnList(s, lo) == ReturnList(t, m) + ReturnList(u, j + 1)
            && StmtSize(s) == CondSize(c) + StmtSize(t) + 1 + StmtSize(u)
  {
    hide *;
    IfElseCode(c, t, u, lo, ex);
    IfElseLists(c, t, u, lo);
  }

  lemma IfElseCode(c: Cond, t: Stmt, u: Stmt, lo: nat, ex: Exits)
    ensures var m := lo + CondSize(c);
            var j := m + StmtSize(t);
            StmtCode(IfElse(c, t, u), lo, ex)
            == (CondCode(c, lo, To(m), To(j + 1)) + StmtCode(t, m, ex)) + ([Jump(ex.next)] + StmtCode(u, j + 1, ex))
  {
    hide CondCode;
  }

  lemma IfElseLists(c: Cond, t: Stmt, u: Stmt, lo: nat)
    ensures var s, m := IfElse(c, t, u), lo + CondSize(c);
            var j := m + StmtSize(t);
            && NextList(s, lo) == NextList(t, m) + NextList(u, j + 1) + [Patch(j, true)]
            && BreakList(s, lo) == BreakList(t, m) + BreakList(u, j + 1)
            && ReturnList(s, lo) == ReturnList(t, m) + ReturnList(u, j + 1)
            && StmtSize(s) == CondSize(c) + StmtSize(t) + 1 + StmtSize(u)
  {
    hide CondCode, StmtCode;
  }

  lemma WhileShape(c: Cond, t: Stmt, lo: nat, ex: Exits)
    ensures var s, m := While(c, t), lo + CondSize(c);
            && StmtCode(s, lo, ex) ==
                 (CondCode(c, lo, To(m), ex.next) + StmtCode(t, m, Exits(To(lo), ex.next, lo, ex.ret))) + [Jump(To(lo))]
            && NextList(s, lo) == BreakList(t, m) + FalseList(c, lo)
            && BreakList(s, lo) == [] && ReturnList(s, lo) == ReturnList(t, m)
            && StmtSize(s) == CondSize(c) + StmtSize(t) + 1
  {
    hide *;
    WhileCode(c, t, lo, ex);
    WhileLists(c, t, lo);
  }

  lemma WhileCode(c: Cond, t: Stmt, lo: nat, ex: Exits)
    ensures var m := lo + CondSize(c);
            StmtCode(While(c, t), lo, ex)
            == (CondCode(c, lo, To(m), ex.next) + StmtCode(t, m, Exits(To(lo), ex.next, lo, ex.ret))) + [Jump(To(lo))]
  {
    hide CondCode;
  }

  lemma WhileLists(c: Cond, t: Stmt, lo: nat)
    ensures var s, m := While(c, t), lo + CondSize(c);
            && NextList(s, lo) == BreakList(t, m) + FalseList(c, lo)
            && BreakList(s, lo) == [] && ReturnList(s, lo) == ReturnList(t, m)
            && StmtSize(s) == CondSize(c) + StmtSize(t) + 1
  {
    hide CondCode, StmtCode, FalseList;
  }

  lemma BlockShape(ss: seq<Stmt>, lo: nat, ex: Exits)
    ensures var s := Block(ss);
            && StmtCode(s, lo, ex) == ([Mark] + ItemsCode(ss, lo + 1, ex)) + [Mark]
            && NextList(s, lo) == ItemsNext(ss, lo + 1) && BreakList(s, lo) == ItemsBreak(ss, lo + 1)
            && ReturnList(s, lo) == ItemsReturn(ss, lo + 1)
            && StmtSize(s) == 1 + ItemsSize(ss) + 1
  {
  }

  function ItemExits(ss: seq<Stmt>, lo: nat, ex: Exits): Exits
    requires ss != []
  {
    if |ss| == 1 then ex else ex.(next := To(lo + StmtSize(ss[0])))
  }

  lemma ItemsShape(ss: seq<Stmt>, lo: nat, ex: Exits)
    requires ss != []
    ensures var m := lo + StmtSize(ss[0]);
            && ItemsCode(ss, lo, ex) == StmtCode(ss[0], lo, ItemExits(ss, lo, ex)) + ItemsCode(ss[1..], m, ex)
            && ItemsNext(ss, lo) == (if |ss| == 1 then NextList(ss[0], lo) else ItemsNext(ss[1..], m))
            && ItemsBreak(ss, lo) == BreakList(ss[0], lo) + ItemsBreak(ss[1..], m)
            && ItemsReturn(ss, lo) == ReturnList(ss[0], lo) + ItemsReturn(ss[1..], m)
            && ItemsSize(ss) == StmtSize(ss[0]) + ItemsSize(ss[1..])
  {
  }

  lemma SimpleShape(s: Stmt, lo: nat, ex: Exits)
    requires s.Simple? || s.Break? || s.Continue? || s.Return?
    ensures StmtCode(s, lo, ex) == match s
            case Simple(steps) => Steps(steps)
            case Break => [Jump(ex.brk)]
            case Continue => [Jump(To(ex.cont))]
            case Return(steps) => Steps(steps) + [Jump(ex.ret)]
    ensures NextList(s, lo) == []
    ensures BreakList(s, lo) == if s.Break? then [Patch(lo, true)] else []
    ensures ReturnList(s, lo) == if s.Return? then [Patch(lo + |s.steps|, true)] else []
  {
  }

  lemma FillJump(lo: nat, list: seq<Patch>, to: Hole, x: Hole)
    ensures Fill([Jump(to)], lo, list, x) ==
              [Jump(if Patch(lo, true) in list || Patch(lo, false) in list then x else to)]
  {
  }

  lemma FillMark(lo: nat, list: seq<Patch>, x: Hole)
    ensures Fill([Mark], lo, list, x) == [Mark]
  {
  }

  // ---------- break ----------

  lemma {:induction false} FillBreak(s: Stmt, lo: nat, ex: Exits, x: Hole)
    ensures Fill(StmtCode(s, lo, ex), lo, BreakList(s, lo), x) == StmtCode(s, lo, ex.(brk := x))
  {
    hide Fill, StmtCode, CondCode, ItemsCode, BreakList, ItemsBreak, ReturnList, NextList, StmtSize, ItemsSize,
         CondSize, FalseList;
    var ex' := ex.(brk := x);
    match s
    case IfThen(c, t) =>
      var m := lo + CondSize(c);
      IfThenShape(c, t, lo, ex);
      IfThenShape(c, t, lo, ex');
      BreakWithin(t, m);
      FillBreak(t, m, ex, x);
      FillOne(CondCode(c, lo, To(m), ex.next), StmtCode(t, m, ex), lo, [], BreakList(t, m), x);
    case IfElse(c, t, u) =>
      IfElseShape(c, t, u, lo, ex);
      IfElseShape(c, t, u, lo, ex');
      var m := lo + CondSize(c);
      var j := m + StmtSize(t);
      BreakWithin(t, m);
      BreakWithin(u, j + 1);
      FillBreak(t, m, ex, x);
      FillBreak(u, j + 1, ex, x);
      FillFour(CondCode(c, lo, To(m), To(j + 1)), StmtCode(t, m, ex), Jump(ex.next), StmtCode(u, j + 1, ex), lo,
        BreakList(t, m), [], BreakList(u, j + 1), BreakList(s, lo), x);
      FillNothing([Jump(ex.next)], j, x);
    case While(c, t) =>
      WhileShape(c, t, lo, ex);
      WhileShape(c, t, lo, ex');
      FillNothing(StmtCode(s, lo, ex), lo, x);
    case Block(ss) =>
      BlockShape(ss, lo, ex);
      BlockShape(ss, lo, ex');
      ItemsBreakWithin(ss, lo + 1);
      FillBreakItems(ss, lo + 1, ex, x);
      FillMiddle(ItemsCode(ss, lo + 1, ex), lo, ItemsBreak(ss, lo + 1), x);
    case _ =>
      SimpleShape(s, lo, ex);
      SimpleShape(s, lo, ex');
      if s.Break? {
        FillJump(lo, BreakList(s, lo), ex.brk, x);
      } else {
        FillNothing(StmtCode(s, lo, ex), lo, x);
      }
  }

  lemma {:induction false} FillBreakItems(ss: seq<Stmt>, lo: nat, ex: Exits, x: Hole)
    ensures Fill(ItemsCode(ss, lo, ex), lo, ItemsBreak(ss, lo), x) == ItemsCode(ss, lo, ex.(brk := x))
  {
    if ss == [] {
      FillNothing([], lo, x);
    } else {
      hide Fill, StmtCode, ItemsCode, BreakList, ItemsBreak, ReturnList, NextList, StmtSize, ItemsSize;
      ItemsShape(ss, lo, ex);
      ItemsShape(ss, lo, ex.(brk := x));
      var m := lo + StmtSize(ss[0]);
      FillBreak(ss[0], lo, ItemExits(ss, lo, ex), x);
      FillBreakItems(ss[1..], m, ex, x);
      BreakWithin(ss[0], lo);
      ItemsBreakWithin(ss[1..], m);
      FillTwo(StmtCode(ss[0], lo, ItemExits(ss, lo, ex)), ItemsCode(ss[1..], m, ex), lo, BreakList(ss[0], lo),
        ItemsBreak(ss[1..], m), x);
    }
  }

  /** The code of an if-else: the lists of its two branches and perhaps its own jump. */
  lemma FillFour(a: seq<Insn>, b: seq<Insn>, jump: Insn, d: seq<Insn>, lo: nat, lb: seq<Patch>, lj: seq<Patch>,
                 ld: seq<Patch>, all: seq<Patch>, x: Hole)
    requires var m := lo + |a|; var j := m + |b|;
             Within(lb, m, j) && Within(lj, j, j + 1) && Within(ld, j + 1, j + 1 + |d|)
    requires forall p :: p in all <==> p in lb || p in lj || p in ld
    ensures var m := lo + |a|; var j := m + |b|;
            Fill((a + b) + ([jump] + d), lo, all, x) ==
              (a + Fill(b, m, lb, x)) + (Fill([jump], j, lj, x) + Fill(d, j + 1, ld, x))
  {
    hide Fill;
    var m := lo + |a|;
    var j := m + |b|;
    FillConcat(a + b, [jump] + d, lo, all, x);
    FillConcat(a, b, lo, all, x);
    FillConcat([jump], d, j, all, x);
    FillOwn(a, lo, [], all, x);
    FillNothing(a, lo, x);
    FillOwn(b, m, lb, all, x);
    FillOwn([jump], j, lj, all, x);
    FillOwn(d, j + 1, ld, all, x);
  }

  lemma FillMiddle(a: seq<Insn>, lo: nat, list: seq<Patch>, x: Hole)
    ensures Fill(([Mark] + a) + [Mark], lo, list, x) == ([Mark] + Fill(a, lo + 1, list, x)) + [Mark]
  {
    hide Fill;
    FillConcat([Mark] + a, [Mark], lo, list, x);
    FillConcat([Mark], a, lo, list, x);
    FillMark(lo, list, x);
    FillMark(lo + 1 + |a|, list, x);
  }

  // ---------- return ----------

  lemma {:induction false} FillReturn(s: Stmt, lo: nat, ex: Exits, x: Hole)
    ensures Fill(StmtCode(s, lo, ex), lo, ReturnList(s, lo), x) == StmtCode(s, lo, ex.(ret := x))
  {
    hide Fill, StmtCode, CondCode, ItemsCode, BreakList, ItemsReturn, ReturnList, NextList, StmtSize, ItemsSize,
         CondSize, FalseList;
    var ex' := ex.(ret := x);
    match s
    case IfThen(c, t) =>
      var m := lo + CondSize(c);
      IfThenShape(c, t, lo, ex);
      IfThenShape(c, t, lo, ex');
      ReturnWithin(t, m);
      FillReturn(t, m, ex, x);
      FillOne(CondCode(c, lo, To(m), ex.next), StmtCode(t, m, ex), lo, [], ReturnList(t, m), x);
    case IfElse(c, t, u) =>
      IfElseShape(c, t, u, lo, ex);
      IfElseShape(c, t, u, lo, ex');
      var m := lo + CondSize(c);
      var j := m + StmtSize(t);
      ReturnWithin(t, m);
      ReturnWithin(u, j + 1);
      FillReturn(t, m, ex, x);
      FillReturn(u, j + 1, ex, x);
      FillFour(CondCode(c, lo, To(m), To(j + 1)), StmtCode(t, m, ex), Jump(ex.next), StmtCode(u, j + 1, ex), lo,
        ReturnList(t, m), [], ReturnList(u, j + 1), ReturnList(s, lo), x);
      FillNothing([Jump(ex.next)], j, x);
    case While(c, t) =>
      var m := lo + CondSize(c);
      WhileShape(c, t, lo, ex);
      WhileShape(c, t, lo, ex');
      ReturnWithin(t, m);
      FillReturn(t, m, Exits(To(lo), ex.next, lo, ex.ret), x);
      FillThree(CondCode(c, lo, To(m), ex.next), StmtCode(t, m, Exits(To(lo), ex.next, lo, ex.ret)), Jump(To(lo)), lo,
        [], ReturnList(t, m), ReturnList(s, lo), x);
      FillNothing(CondCode(c, lo, To(m), ex.next), lo, x);
    case Block(ss) =>
      BlockShape(ss, lo, ex);
      BlockShape(ss, lo, ex');
      FillReturnItems(ss, lo + 1, ex, x);
      FillMiddle(ItemsCode(ss, lo + 1, ex), lo, ItemsReturn(ss, lo + 1), x);
    case Return(steps) =>
      SimpleShape(s, lo, ex);
      SimpleShape(s, lo, ex');
      FillSteps(steps, Jump(ex.ret), lo, ReturnList(s, lo), x);
    case _ =>
      SimpleShape(s, lo, ex);
      SimpleShape(s, lo, ex');
      FillNothing(StmtCode(s, lo, ex), lo, x);
  }

  lemma {:induction false} FillReturnItems(ss: seq<Stmt>, lo: nat, ex: Exits, x: Hole)
    ensures Fill(ItemsCode(ss, lo, ex), lo, ItemsReturn(ss, lo), x) == ItemsCode(ss, lo, ex.(ret := x))
  {
    if ss == [] {
      FillNothing([], lo, x);
    } else {
      hide Fill, StmtCode, ItemsCode, ReturnList, ItemsReturn, BreakList, NextList, StmtSize, ItemsSize;
      ItemsShape(ss, lo, ex);
      ItemsShape(ss, lo, ex.(ret := x));
      var m := lo + StmtSize(ss[0]);
      FillReturn(ss[0], lo, ItemExits(ss, lo, ex), x);
      FillReturnItems(ss[1..], m, ex, x);
      ReturnWithin(ss[0], lo);
      ItemsReturnWithin(ss[1..], m);
      FillTwo(StmtCode(ss[0], lo, ItemExits(ss, lo, ex)), ItemsCode(ss[1..], m, ex), lo, ReturnList(ss[0], lo),
        ItemsReturn(ss[1..], m), x);
    }
  }

  /** The code of a loop: the lists of its condition and its body. */
  lemma FillThree(a: seq<Insn>, b: seq<Insn>, jump: Insn, lo: nat, la: seq<Patch>, lb: seq<Patch>, all: seq<Patch>,
                  x: Hole)
    requires Within(la, lo, lo + |a|) && Within(lb, lo + |a|, lo + |a| + |b|)
    requires forall p :: p in all <==> p in la || p in lb
    ensures Fill((a + b) + [jump], lo, all, x) == (Fill(a, lo, la, x) + Fill(b, lo + |a|, lb, x)) + [jump]
  {
    hide Fill;
    FillConcat(a + b, [jump], lo, all, x);
    FillConcat(a, b, lo, all, x);
    FillOwn(a, lo, la, all, x);
    FillOwn(b, lo + |a|, lb, all, x);
    FillOwn([jump], lo + |a| + |b|, [], all, x);
    FillNothing([jump], lo + |a| + |b|, x);
  }

  // ---------- next ----------

  lemma {:induction false} FillNext(s: Stmt, lo: nat, ex: Exits, x: Hole)
    ensures Fill(StmtCode(s, lo, ex), lo, NextList(s, lo), x) == StmtCode(s, lo, ex.(next := x))
  {
    hide Fill, StmtCode, CondCode, ItemsCode, BreakList, ItemsNext, ReturnList, NextList, StmtSize, ItemsSize, CondSize,
         FalseList;
    var ex' := ex.(next := x);
    match s
    case IfThen(c, t) =>
      var m := lo + CondSize(c);
      IfThenShape(c, t, lo, ex);
      IfThenShape(c, t, lo, ex');
      CondListsWithin(c, lo);
      NextWithin(t, m);
      FillNext(t, m, ex, x);
      FillCond(c, lo, To(m), ex.next, x);
      FillTwo(CondCode(c, lo, To(m), ex.next), StmtCode(t, m, ex), lo, FalseList(c, lo), NextList(t, m), x);
    case IfElse(c, t, u) =>
      IfElseShape(c, t, u, lo, ex);
      IfElseShape(c, t, u, lo, ex');
      var m := lo + CondSize(c);
      var j := m + StmtSize(t);
      NextWithin(t, m);
      NextWithin(u, j + 1);
      FillNext(t, m, ex, x);
      FillNext(u, j + 1, ex, x);
      FillFour(CondCode(c, lo, To(m), To(j + 1)), StmtCode(t, m, ex), Jump(ex.next), StmtCode(u, j + 1, ex), lo,
        NextList(t, m), [Patch(j, true)], NextList(u, j + 1), NextList(s, lo), x);
      FillJump(j, [Patch(j, true)], ex.next, x);
    case While(c, t) =>
      var m := lo + CondSize(c);
      WhileShape(c, t, lo, ex);
      WhileShape(c, t, lo, ex');
      CondListsWithin(c, lo);
      BreakWithin(t, m);
      FillCond(c, lo, To(m), ex.next, x);
      FillBreak(t, m, Exits(To(lo), ex.next, lo, ex.ret), x);
      FillThree(CondCode(c, lo, To(m), ex.next), StmtCode(t, m, Exits(To(lo), ex.next, lo, ex.ret)), Jump(To(lo)), lo,
        FalseList(c, lo), BreakList(t, m), NextList(s, lo), x);
    case Block(ss) =>
      BlockShape(ss, lo, ex);
      BlockShape(ss, lo, ex');
      FillNextItems(ss, lo + 1, ex, x);
      FillMiddle(ItemsCode(ss, lo + 1, ex), lo, ItemsNext(ss, lo + 1), x);
    case _ =>
      SimpleShape(s, lo, ex);
      SimpleShape(s, lo, ex');
      FillNothing(StmtCode(s, lo, ex), lo, x);
  }

  lemma {:induction false} FillNextItems(ss: seq<Stmt>, lo: nat, ex: Exits, x: Hole)
    ensures Fill(ItemsCode(ss, lo, ex), lo, ItemsNext(ss, lo), x) == ItemsCode(ss, lo, ex.(next := x))
  {
    if ss == [] {
      FillNothing([], lo, x);
    } else if |ss| == 1 {
      FillNext(ss[0], lo, ex, x);
      assert ss[1..] == [];
      assert ItemsCode(ss, lo, ex) == StmtCode(ss[0], lo, ex);
      assert ItemsCode(ss, lo, ex.(next := x)) == StmtCode(ss[0], lo, ex.(next := x));
    } else {
      hide Fill, StmtCode, ItemsCode, ItemsNext, BreakList, NextList, ReturnList, StmtSize, ItemsSize;
      ItemsShape(ss, lo, ex);
      ItemsShape(ss, lo, ex.(next := x));
      var m := lo + StmtSize(ss[0]);
      FillNextItems(ss[1..], m, ex, x);
      ItemsNextWithin(ss[1..], m);
      FillOne(StmtCode(ss[0], lo, ItemExits(ss, lo, ex)), ItemsCode(ss[1..], m, ex), lo, [], ItemsNext(ss[1..], m), x);
    }
  }
}
