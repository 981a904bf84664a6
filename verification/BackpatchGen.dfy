/** The code generator itself: it appends instructions, keeps lists of holes, and fills
    them once the goal is known. */
module BackpatchGen {
  import opened Words
  import opened Backpatch
  import opened BackpatchFill

  // ---------- filling inside longer code ----------

  lemma FillTail(prefix: seq<Insn>, b: seq<Insn>, base: nat, list: seq<Patch>, x: Hole)
    requires Within(list, base + |prefix|, base + |prefix| + |b|)
    ensures Fill(prefix + b, base, list, x) == prefix + Fill(b, base + |prefix|, list, x)
  {
    FillOne(prefix, b, base, [], list, x);
  }

  lemma FillMid(prefix: seq<Insn>, a: seq<Insn>, b: seq<Insn>, base: nat, list: seq<Patch>, x: Hole)
    requires Within(list, base + |prefix|, base + |prefix| + |a|)
    ensures Fill(prefix + a + b, base, list, x) == prefix + Fill(a, base + |prefix|, list, x) + b
  {
    hide Fill;
    FillOne(prefix + a, b, base, list, [], x);
    FillTail(prefix, a, base, list, x);
  }

  lemma {:induction false} ItemsSnoc(ss: seq<Stmt>, s: Stmt, lo: nat, ex: Exits)
    ensures ItemsSize(ss + [s]) == ItemsSize(ss) + StmtSize(s)
    ensures ItemsCode(ss + [s], lo, ex) ==
              ItemsCode(ss, lo, ex.(next := To(lo + ItemsSize(ss)))) + StmtCode(s, lo + ItemsSize(ss), ex)
    ensures ItemsNext(ss + [s], lo) == NextList(s, lo + ItemsSize(ss))
    ensures ItemsBreak(ss + [s], lo) == ItemsBreak(ss, lo) + BreakList(s, lo + ItemsSize(ss))
    ensures ItemsReturn(ss + [s], lo) == ItemsReturn(ss, lo) + ReturnList(s, lo + ItemsSize(ss))
    ensures forall l :: AllNested(ss + [s], l) <==> AllNested(ss, l) && Nested(s, l)
  {
    hide StmtCode, StmtSize, NextList, BreakList, ReturnList, Nested, ItemsCode, ItemsSize, ItemsNext, ItemsBreak,
         ItemsReturn;
    NoItems(lo, ex);
    if ss == [] {
      assert ss + [s] == [s] && [s][1..] == [];
      OneItem(s, lo, ex);
      NoItems(lo, ex.(next := To(lo)));
    } else {
      var m := lo + StmtSize(ss[0]);
      ItemsSnoc(ss[1..], s, m, ex);
      assert (ss + [s])[1..] == ss[1..] + [s] && (ss + [s])[0] == ss[0];
      ItemsShape(ss + [s], lo, ex);
      ItemsShape(ss, lo, ex.(next := To(lo + ItemsSize(ss))));
      if |ss| == 1 {
        assert ss[1..] == [];
      }
    }
  }

  lemma OneItem(s: Stmt, lo: nat, ex: Exits)
    ensures ItemsSize([s]) == StmtSize(s) && ItemsCode([s], lo, ex) == StmtCode(s, lo, ex)
    ensures ItemsNext([s], lo) == NextList(s, lo)
    ensures ItemsBreak([s], lo) == BreakList(s, lo) && ItemsReturn([s], lo) == ReturnList(s, lo)
  {
    hide StmtCode, StmtSize, NextList, BreakList, ReturnList;
    ItemsShape([s], lo, ex);
    assert [s][1..] == [];
  }

  // ---------- what the filling of each statement makes of its pieces ----------

  lemma AndAssembled(code0: seq<Insn>, l: Cond, r: Cond, lo: nat, base: nat)
    requires lo == base + |code0|
    ensures var m := lo + CondSize(l);
            Fill(code0 + CondCode(l, lo, Empty, Empty) + CondCode(r, m, Empty, Empty), base, TrueList(l, lo), To(m))
            == code0 + CondCode(And(l, r), lo, Empty, Empty)
  {
    hide Fill, CondCode, TrueList, FalseList, CondSize, Within;
    var m := lo + CondSize(l);
    var a, b := CondCode(l, lo, Empty, Empty), CondCode(r, m, Empty, Empty);
    CondListsWithin(l, lo);
    FillMid(code0, a, b, base, TrueList(l, lo), To(m));
    FillCond(l, lo, Empty, Empty, To(m));
    AndCode(l, r, lo, Empty, Empty);
    assert code0 + CondCode(l, lo, To(m), Empty) + b == code0 + (CondCode(l, lo, To(m), Empty) + b);
  }

  lemma OrAssembled(code0: seq<Insn>, l: Cond, r: Cond, lo: nat, base: nat)
    requires lo == base + |code0|
    ensures var m := lo + CondSize(l);
            Fill(code0 + CondCode(l, lo, Empty, Empty) + CondCode(r, m, Empty, Empty), base, FalseList(l, lo), To(m))
            == code0 + CondCode(Or(l, r), lo, Empty, Empty)
  {
    hide Fill, CondCode, TrueList, FalseList, CondSize, Within;
    var m := lo + CondSize(l);
    var a, b := CondCode(l, lo, Empty, Empty), CondCode(r, m, Empty, Empty);
    CondListsWithin(l, lo);
    FillMid(code0, a, b, base, FalseList(l, lo), To(m));
    FillCond(l, lo, Empty, Empty, To(m));
    OrCode(l, r, lo, Empty, Empty);
    assert code0 + CondCode(l, lo, Empty, To(m)) + b == code0 + (CondCode(l, lo, Empty, To(m)) + b);
  }

  lemma IfThenAssembled(code0: seq<Insn>, c: Cond, t: Stmt, lo: nat, ex: Exits, base: nat)
    requires ex.next == Empty && lo == base + |code0|
    ensures var m := lo + CondSize(c);
            Fill(code0 + CondCode(c, lo, Empty, Empty) + StmtCode(t, m, ex), base, TrueList(c, lo), To(m)) ==
              code0 + StmtCode(IfThen(c, t), lo, ex)
  {
    hide Fill, StmtCode, CondCode, TrueList, FalseList, StmtSize, CondSize, Within;
    var m := lo + CondSize(c);
    var a, b := CondCode(c, lo, Empty, Empty), StmtCode(t, m, ex);
    CondListsWithin(c, lo);
    FillMid(code0, a, b, base, TrueList(c, lo), To(m));
    FillCond(c, lo, Empty, Empty, To(m));
    IfThenCode(c, t, lo, ex);
    assert code0 + CondCode(c, lo, To(m), Empty) + b == code0 + (CondCode(c, lo, To(m), Empty) + b);
  }

  lemma IfElseAssembled(code0: seq<Insn>, c: Cond, t: Stmt, u: Stmt, lo: nat, ex: Exits, base: nat)
    requires ex.next == Empty && lo == base + |code0|
    ensures var m := lo + CondSize(c);
            var m2 := m + StmtSize(t) + 1;
            var rest := StmtCode(t, m, ex) + ([Jump(Empty)] + StmtCode(u, m2, ex));
            Fill(Fill(code0 + CondCode(c, lo, Empty, Empty) + rest, base, TrueList(c, lo), To(m)), base,
              FalseList(c, lo), To(m2))
            == code0 + StmtCode(IfElse(c, t, u), lo, ex)
  {
    hide Fill, StmtCode, CondCode, TrueList, FalseList, StmtSize, CondSize, Within;
    var m := lo + CondSize(c);
    var m2 := m + StmtSize(t) + 1;
    var a, b, d := CondCode(c, lo, Empty, Empty), StmtCode(t, m, ex), [Jump(Empty)] + StmtCode(u, m2, ex);
    CondListsWithin(c, lo);
    FillMid(code0, a, b + d, base, TrueList(c, lo), To(m));
    FillCond(c, lo, Empty, Empty, To(m));
    FillMid(code0, CondCode(c, lo, To(m), Empty), b + d, base, FalseList(c, lo), To(m2));
    FillCond(c, lo, To(m), Empty, To(m2));
    IfElseCode(c, t, u, lo, ex);
    var a2 := CondCode(c, lo, To(m), To(m2));
    assert code0 + a2 + (b + d) == code0 + ((a2 + b) + d);
  }

  lemma WhileAssembled(code0: seq<Insn>, c: Cond, t: Stmt, lo: nat, ex: Exits, base: nat)
    requires ex.next == Empty && ex.ret == Empty && lo == base + |code0|
    ensures var m := lo + CondSize(c);
            Fill(Fill(code0 + CondCode(c, lo, Empty, Empty) + StmtCode(t, m, Open(lo)), base, NextList(t, m), To(lo)),
              base, TrueList(c, lo), To(m)) + [Jump(To(lo))]
            == code0 + StmtCode(While(c, t), lo, ex)
  {
    hide Fill, StmtCode, CondCode, NextList, TrueList, FalseList, StmtSize, CondSize, Within;
    var m := lo + CondSize(c);
    var a, b := CondCode(c, lo, Empty, Empty), StmtCode(t, m, Open(lo));
    var b' := StmtCode(t, m, Exits(To(lo), Empty, lo, Empty));
    NextWithin(t, m);
    FillTail(code0 + a, b, base, NextList(t, m), To(lo));
    FillNext(t, m, Open(lo), To(lo));
    CondListsWithin(c, lo);
    FillMid(code0, a, b', base, TrueList(c, lo), To(m));
    FillCond(c, lo, Empty, Empty, To(m));
    WhileCode(c, t, lo, ex);
    var a2 := CondCode(c, lo, To(m), Empty);
    assert code0 + a2 + b' + [Jump(To(lo))] == code0 + ((a2 + b') + [Jump(To(lo))]);
  }

  /** Nothing is known yet about where control goes, except the start of the loop. */
  function Open(cont: nat): Exits {
    Exits(Empty, Empty, cont, Empty)
  }

  /** What the visitor of a condition leaves: a value, or two lists. */
  datatype Visited = Value(a: Operand) | Lists(yes: seq<Patch>, no: seq<Patch>)

  class Generator {
    const base: nat
    var counter: nat
    var code: seq<Insn>
    var starts: seq<nat>
    var breaks: seq<seq<Patch>>
    var toExit: seq<Patch>

    ghost predicate Valid()
      reads this
    {
      counter == base + |code| && |starts| == |breaks|
    }

    function Cont(): nat
      reads this
    {
      if starts == [] then 0 else starts[|starts| - 1]
    }

    constructor ()
      ensures Valid() && code == [] && base == 100 && starts == [] && toExit == []
    {
      base, counter, code, starts, breaks, toExit := 100, 100, [], [], [], [];
    }

    method Emit(insn: Insn)
      requires Valid()
      modifies this`code, this`counter
      ensures Valid() && code == old(code) + [insn] && counter == old(counter) + 1
    {
      code, counter := code + [insn], counter + 1;
    }

    method EmitSteps(steps: seq<nat>)
      requires Valid()
      modifies this`code, this`counter
      ensures Valid() && code == old(code) + Steps(steps) && counter == old(counter) + |steps|
    {
      var i := 0;
      while i < |steps|
        invariant 0 <= i <= |steps| && Valid() && code == old(code) + Steps(steps[..i])
      {
        Emit(Do(steps[i]));
        assert steps[..i + 1] == steps[..i] + [steps[i]];
        i := i + 1;
      }
      assert steps[..i] == steps;
    }

    /** DoBackpatch: from the last patch of the list to the first. */
    method DoBackpatch(list: seq<Patch>, id: nat)
      requires Valid() && Within(list, base, counter)
      modifies this`code
      ensures Valid() && code == Fill(old(code), base, list, To(id))
    {
      var i := |list|;
      FillNothing(code, base, To(id));
      assert list[i..] == [];
      while i > 0
        invariant 0 <= i <= |list| && Valid() && |code| == |old(code)|
        invariant code == Fill(old(code), base, list[i..], To(id))
      {
        i := i - 1;
        assert list[i] in list;
        var k := list[i].at - base;
        var insn := code[k];
        assert list[i..] == [list[i]] + list[i + 1..];
        if insn.Branch? {
          code := code[k := if list[i].isTrue then insn.(yes := To(id)) else insn.(no := To(id))];
        } else if insn.Jump? {
          code := code[k := Jump(To(id))];
        }
      }
      assert list[0..] == list;
    }

    /** create_cmp_insn. */
    method EmitCmp(rel: Rel, a: Operand, b: Operand) returns (yes: seq<Patch>, no: seq<Patch>)
      requires Valid()
      modifies this`code, this`counter
      ensures Valid() && code == old(code) + [Cmp(rel, a, b, Empty, Empty)] && counter == old(counter) + 1
      ensures yes == CmpTrue(rel, a, b, old(counter)) && no == CmpFalse(rel, a, b, old(counter))
    {
      yes, no := [], [];
      var at := counter;
      if a.Literal? && b.Literal? {
        Emit(Jump(Empty));
        if Holds(rel, a.n, b.n) {
          yes := [Patch(at, true)];
        } else {
          no := [Patch(at, false)];
        }
      } else {
        Emit(Branch(rel, a, b, Empty, Empty));
        yes, no := [Patch(at, true)], [Patch(at, false)];
      }
    }

    /** The visitors of names, constants, comparisons, and, or, not. */
    method VisitCond(c: Cond) returns (r: Visited)
      requires Valid()
      modifies this`code, this`counter
      ensures Valid() && counter >= old(counter)
      ensures IsValue(c) ==> r == Value(ValueOf(c)) && code == old(code) + Steps(c.pre)
      ensures !IsValue(c) ==> r == Lists(TrueList(c, old(counter)), FalseList(c, old(counter)))
                              && code == old(code) + CondCode(c, old(counter), Empty, Empty)
      decreases c, 0
    {
      hide Fill, CondCode, TrueList, FalseList, Within, CondSize, Cmp, CmpTrue, CmpFalse;
      ghost var lo, code0 := counter, code;
      match c {
        case Operand(pre, a) =>
          EmitSteps(pre);
          r := Value(a);
        case Compare(pre, rel, a, b) =>
          EmitSteps(pre);
          if a.Literal? && b.Literal? {
            r := Value(Literal(if Holds(rel, a.n, b.n) then 1 else 0));
          } else {
            var yes, no := EmitCmp(rel, a, b);
            r := Lists(yes, no);
            LeafShape(c, lo);
            assert code == code0 + (Steps(pre) + [Cmp(rel, a, b, Empty, Empty)]);
          }
        case And(left, right) =>
          var t1, f1 := GenCond(left);
          var next := counter;
          var t2, f2 := GenCond(right);
          AndAssembled(code0, left, right, lo, base);
          CondListsWithin(left, lo);
          WithinWider(t1, lo, next, base, counter);
          DoBackpatch(t1, next);
          AndCode(left, right, lo, Empty, Empty);
          r := Lists(t2, f1 + f2);
        case Or(left, right) =>
          var t1, f1 := GenCond(left);
          var next := counter;
          var t2, f2 := GenCond(right);
          OrAssembled(code0, left, right, lo, base);
          CondListsWithin(left, lo);
          WithinWider(f1, lo, next, base, counter);
          DoBackpatch(f1, next);
          OrCode(left, right, lo, Empty, Empty);
          r := Lists(t1 + t2, f2);
        case Not(arg) =>
          var v := VisitCond(arg);
          NotShape(c, lo);
          match v {
            case Value(a) =>
              var yes, no := EmitCmp(Eq, a, Literal(0));
              r := Lists(yes, no);
              assert code == code0 + (Steps(arg.pre) + [Cmp(Eq, a, Literal(0), Empty, Empty)]);
            case Lists(yes, no) =>
              r := Lists(no, yes);
          }
      }
    }

    /** A condition made boolean: a value is compared with zero. */
    method GenCond(c: Cond) returns (yes: seq<Patch>, no: seq<Patch>)
      requires Valid()
      modifies this`code, this`counter
      ensures Valid() && code == old(code) + CondCode(c, old(counter), Empty, Empty)
      ensures counter == old(counter) + CondSize(c)
      ensures yes == TrueList(c, old(counter)) && no == FalseList(c, old(counter))
      decreases c, 1
    {
      hide CondCode, TrueList, FalseList, CondSize, Cmp, CmpTrue, CmpFalse;
      ghost var code0, lo := code, counter;
      var v := VisitCond(c);
      match v {
        case Value(a) =>
          yes, no := EmitCmp(Ne, a, Literal(0));
          ValueShape(c, lo);
          assert code == code0 + (Steps(c.pre) + [Cmp(Ne, a, Literal(0), Empty, Empty)]);
        case Lists(t, f) =>
          yes, no := t, f;
      }
      assert |code| == |code0| + CondSize(c);
    }

    /** The visitors of statements: the holes that lead to what comes next are returned;
        breaks go to the list of the loop, returns to that of the function. */
    method GenStmt(s: Stmt) returns (ok: bool, next: seq<Patch>)
      requires Valid()
      modifies this
      ensures ok <==> Nested(s, old(starts) != [])
      ensures ok ==> Valid() && starts == old(starts) && next == NextList(s, old(counter))
      ensures ok ==>
                code == old(code) + StmtCode(s, old(counter), Open(old(Cont())))
                  && counter == old(counter) + StmtSize(s)
      ensures ok ==> toExit == old(toExit) + ReturnList(s, old(counter))
      ensures ok ==> breaks == AddBreaks(old(breaks), BreakList(s, old(counter)))
      decreases s, 1
    {
      hide Fill, StmtCode, CondCode, ItemsCode, NextList, BreakList, ReturnList, ItemsNext, ItemsBreak, ItemsReturn,
           TrueList, FalseList,
           StmtSize, ItemsSize, CondSize, Within;
      ghost var lo, code0, ex := counter, code, Open(Cont());
      ok, next := true, [];
      AddNone(breaks);
      match s {
        case Simple(steps) =>
          EmitSteps(steps);
          SimpleShape(s, lo, ex);
        case IfThen(c, t) =>
          ok, next := GenIfThen(s, c, t);
        case IfElse(c, t, u) =>
          ok, next := GenIfElse(s, c, t, u);
        case While(c, t) =>
          ok, next := GenWhile(s, c, t);
        case Break =>
          if breaks == [] {
            return false, [];
          }
          breaks := breaks[|breaks| - 1 := breaks[|breaks| - 1] + [Patch(counter, true)]];
          Emit(Jump(Empty));
          SimpleShape(s, lo, ex);
        case Continue =>
          if starts == [] {
            return false, [];
          }
          Emit(Jump(To(starts[|starts| - 1])));
          SimpleShape(s, lo, ex);
        case Return(steps) =>
          EmitSteps(steps);
          toExit := toExit + [Patch(counter, true)];
          Emit(Jump(Empty));
          SimpleShape(s, lo, ex);
          assert code == code0 + (Steps(steps) + [Jump(Empty)]);
        case Block(ss) =>
          ok, next := GenBlock(s, ss);
      }
      if ok {
        assert |code| == |code0| + |StmtCode(s, lo, ex)|;
      }
    }

    method GenIfThen(s: Stmt, c: Cond, t: Stmt) returns (ok: bool, next: seq<Patch>)
      requires Valid() && s == IfThen(c, t)
      modifies this
      ensures ok <==> Nested(s, old(starts) != [])
      ensures ok ==> Valid() && starts == old(starts) && next == NextList(s, old(counter))
      ensures ok ==> code == old(code) + StmtCode(s, old(counter), Open(old(Cont())))
      ensures ok ==> toExit == old(toExit) + ReturnList(s, old(counter))
      ensures ok ==> breaks == AddBreaks(old(breaks), BreakList(s, old(counter)))
      decreases s, 0
    {
      hide Fill, StmtCode, CondCode, NextList, BreakList, ReturnList, TrueList, FalseList, StmtSize, CondSize, Within;
      ghost var lo, code0, ex := counter, code, Open(Cont());
      var yes, no := GenCond(c);
      var m := counter;
      ghost var a := CondCode(c, lo, Empty, Empty);
      var n1;
      ok, n1 := GenStmt(t);
      if !ok {
        return false, [];
      }
      IfThenAssembled(code0, c, t, lo, ex, base);
      CondListsWithin(c, lo);
      WithinWider(yes, lo, m, base, counter);
      DoBackpatch(yes, m);
      IfThenLists(c, t, lo);
      next := no + n1;
    }

    method GenIfElse(s: Stmt, c: Cond, t: Stmt, u: Stmt) returns (ok: bool, next: seq<Patch>)
      requires Valid() && s == IfElse(c, t, u)
      modifies this
      ensures ok <==> Nested(s, old(starts) != [])
      ensures ok ==> Valid() && starts == old(starts) && next == NextList(s, old(counter))
      ensures ok ==> code == old(code) + StmtCode(s, old(counter), Open(old(Cont())))
      ensures ok ==> toExit == old(toExit) + ReturnList(s, old(counter))
      ensures ok ==> breaks == AddBreaks(old(breaks), BreakList(s, old(counter)))
      decreases s, 0
    {
      hide Fill, StmtCode, CondCode, NextList, BreakList, ReturnList, TrueList, FalseList, StmtSize, CondSize, Within;
      ghost var lo, code0, ex := counter, code, Open(Cont());
      var yes, no := GenCond(c);
      var m := counter;
      ghost var a := CondCode(c, lo, Empty, Empty);
      var n1, n2;
      ok, n1 := GenStmt(t);
      if !ok {
        return false, [];
      }
      ghost var b := StmtCode(t, m, ex);
      var j := counter;
      Emit(Jump(Empty));
      var m2 := counter;
      ok, n2 := GenStmt(u);
      if !ok {
        return false, [];
      }
      assert code == code0 + a + (b + ([Jump(Empty)] + StmtCode(u, m2, ex)));
      IfElseAssembled(code0, c, t, u, lo, ex, base);
      CondListsWithin(c, lo);
      WithinWider(yes, lo, m, base, counter);
      DoBackpatch(yes, m);
      WithinWider(no, lo, m, base, counter);
      DoBackpatch(no, m2);
      IfElseLists(c, t, u, lo);
      next := n1 + n2 + [Patch(j, true)];
      AddTwice(old(breaks), BreakList(t, m), BreakList(u, m2));
    }

    method GenWhile(s: Stmt, c: Cond, t: Stmt) returns (ok: bool, next: seq<Patch>)
      requires Valid() && s == While(c, t)
      modifies this
      ensures ok <==> Nested(s, old(starts) != [])
      ensures ok ==> Valid() && starts == old(starts) && next == NextList(s, old(counter))
      ensures ok ==> code == old(code) + StmtCode(s, old(counter), Open(old(Cont())))
      ensures ok ==> toExit == old(toExit) + ReturnList(s, old(counter))
      ensures ok ==> breaks == AddBreaks(old(breaks), BreakList(s, old(counter)))
      decreases s, 0
    {
      hide Fill, StmtCode, CondCode, NextList, BreakList, ReturnList, TrueList, FalseList, StmtSize, CondSize, Within;
      ghost var code0, ex := code, Open(Cont());
      var lo := counter;
      starts, breaks := starts + [lo], breaks + [[]];
      var yes, no := GenCond(c);
      var m := counter;
      ghost var a := CondCode(c, lo, Empty, Empty);
      var n1;
      ok, n1 := GenStmt(t);
      if !ok {
        return false, [];
      }
      assert code == (code0 + a) + StmtCode(t, m, Open(lo));
      WhileAssembled(code0, c, t, lo, ex, base);
      NextWithin(t, m);
      WithinWider(n1, m, counter, base, counter);
      DoBackpatch(n1, lo);
      CondListsWithin(c, lo);
      WithinWider(yes, lo, m, base, counter);
      DoBackpatch(yes, m);
      next := breaks[|breaks| - 1] + no;
      starts, breaks := starts[..|starts| - 1], breaks[..|breaks| - 1];
      Emit(Jump(To(lo)));
      WhileLists(c, t, lo);
      AddNone(old(breaks));
    }

    method GenBlock(s: Stmt, ss: seq<Stmt>) returns (ok: bool, next: seq<Patch>)
      requires Valid() && s == Block(ss)
      modifies this
      ensures ok <==> AllNested(ss, old(starts) != [])
      ensures ok ==> Valid() && starts == old(starts) && next == NextList(s, old(counter))
      ensures ok ==> code == old(code) + StmtCode(s, old(counter), Open(old(Cont())))
      ensures ok ==> toExit == old(toExit) + ReturnList(s, old(counter))
      ensures ok ==> breaks == AddBreaks(old(breaks), BreakList(s, old(counter)))
      decreases s, 0
    {
      hide Fill, StmtCode, ItemsCode, NextList, BreakList, ReturnList, ItemsNext, ItemsBreak, ItemsReturn, StmtSize,
           ItemsSize, Within, Nested, AllNested;
      ghost var lo, code0, ex := counter, code, Open(Cont());
      Emit(Mark);
      next := [];
      var i := 0;
      NoItems(lo + 1, ex);
      AddNone(breaks);
      assert ss[..0] == [];
      while i < |ss|
        invariant 0 <= i <= |ss| && Valid() && starts == old(starts)
        invariant AllNested(ss[..i], starts != [])
        invariant code == (code0 + [Mark]) + ItemsCode(ss[..i], lo + 1, ex) && next == ItemsNext(ss[..i], lo + 1)
        invariant counter == lo + 1 + ItemsSize(ss[..i])
        invariant toExit == old(toExit) + ItemsReturn(ss[..i], lo + 1)
        invariant breaks == AddBreaks(old(breaks), ItemsBreak(ss[..i], lo + 1))
      {
        var m := counter;
        var n1;
        ghost var done := ss[..i];
        assert ss[..i + 1] == done + [ss[i]];
        ItemsSnoc(done, ss[i], lo + 1, ex);
        ok, n1 := GenStmt(ss[i]);
        if !ok {
          NestedPrefix(ss, i + 1, old(starts) != []);
          Emit'(Mark);
          return false, [];
        }
        ghost var b := StmtCode(ss[i], m, ex);
        ItemsNextWithin(done, lo + 1);
        FillMid(code0 + [Mark], ItemsCode(done, lo + 1, ex), b, base, next, To(m));
        FillNextItems(done, lo + 1, ex, To(m));
        WithinWider(next, lo + 1, m, base, counter);
        DoBackpatch(next, m);
        next := n1;
        AddTwice(old(breaks), ItemsBreak(done, lo + 1), BreakList(ss[i], m));
        i := i + 1;
      }
      assert ss[..i] == ss;
      Emit(Mark);
      BlockShape(ss, lo, ex);
      assert code == code0 + (([Mark] + ItemsCode(ss, lo + 1, ex)) + [Mark]);
      ok := true;
    }

    /** The end mark of a block that could not be translated. */
    method Emit'(insn: Insn)
      modifies this`code, this`counter
      ensures code == old(code) + [insn] && counter == old(counter) + 1
    {
      code, counter := code + [insn], counter + 1;
    }

    /** VisitTN_FuncDef: entry, parameters, body, and the exit to which all open holes lead. */
    method GenFunction(prologue: seq<nat>, body: Stmt, epilogue: seq<nat>) returns (ok: bool)
      requires Valid() && starts == [] && toExit == []
      modifies this
      ensures ok <==> Nested(body, false)
      ensures ok ==> Valid() && code == old(code) + FunctionCode(prologue, body, epilogue, old(counter))
    {
      hide Fill, StmtCode, NextList, BreakList, ReturnList, StmtSize, Within, Nested;
      ghost var code0, lo := code, counter;
      Emit(Mark);
      EmitSteps(prologue);
      ghost var head := code;
      var m := counter;
      var next;
      ok, next := GenStmt(body);
      if !ok {
        return;
      }
      var end := counter;
      assert toExit == ReturnList(body, m);
      NextWithin(body, m);
      FillTail(head, StmtCode(body, m, Open(0)), base, next, To(end));
      FillNext(body, m, Open(0), To(end));
      WithinWider(next, m, end, base, end);
      DoBackpatch(next, end);
      ReturnWithin(body, m);
      FillTail(head, StmtCode(body, m, Exits(To(end), Empty, 0, Empty)), base, toExit, To(end));
      FillReturn(body, m, Exits(To(end), Empty, 0, Empty), To(end));
      WithinWider(toExit, m, end, base, end);
      DoBackpatch(toExit, end);
      EmitSteps(epilogue);
      Emit(Exit);
      ghost var whole := StmtCode(body, m, Exits(To(end), Empty, 0, To(end)));
      assert head == code0 + ([Mark] + Steps(prologue));
      assert code == head + whole + Steps(epilogue) + [Exit];
      assert code == code0 + ([Mark] + Steps(prologue) + whole + Steps(epilogue) + [Exit]);
    }
  }

  /** A function: its body ends, and its returns jump, right after the body's code. */
  function FunctionCode(prologue: seq<nat>, body: Stmt, epilogue: seq<nat>, lo: nat): seq<Insn> {
    var m := lo + 1 + |prologue|;
    var end := m + StmtSize(body);
    [Mark] + Steps(prologue) + StmtCode(body, m, Exits(To(end), Empty, 0, To(end))) + Steps(epilogue) + [Exit]
  }

  /** The innermost loop's list grows; outside loops there is nothing to grow. */
  function AddBreaks(breaks: seq<seq<Patch>>, list: seq<Patch>): seq<seq<Patch>> {
    if breaks == [] then breaks else breaks[|breaks| - 1 := breaks[|breaks| - 1] + list]
  }

  lemma AddNone(breaks: seq<seq<Patch>>)
    ensures AddBreaks(breaks, []) == breaks
  {
    if breaks != [] {
      assert breaks[|breaks| - 1] + [] == breaks[|breaks| - 1];
    }
  }

  lemma AddTwice(breaks: seq<seq<Patch>>, a: seq<Patch>, b: seq<Patch>)
    ensures AddBreaks(AddBreaks(breaks, a), b) == AddBreaks(breaks, a + b)
  {
    if breaks != [] {
      assert (breaks[|breaks| - 1] + a) + b == breaks[|breaks| - 1] + (a + b);
    }
  }

  lemma WithinWider(a: seq<Patch>, lo: nat, hi: nat, lo2: nat, hi2: nat)
    requires Within(a, lo, hi) && lo2 <= lo && hi <= hi2
    ensures Within(a, lo2, hi2)
  {
  }

  lemma NoItems(lo: nat, ex: Exits)
    ensures ItemsCode([], lo, ex) == [] && ItemsSize([]) == 0 && ItemsNext([], lo) == [] && ItemsBreak([], lo) == []
    ensures ItemsReturn([], lo) == []
    ensures AllNested([], true) && AllNested([], false)
  {
  }

  lemma {:induction false} NestedPrefix(ss: seq<Stmt>, i: nat, inLoop: bool)
    requires i <= |ss| && !AllNested(ss[..i], inLoop)
    ensures !AllNested(ss, inLoop)
    decreases i
  {
    if i > 0 {
      if Nested(ss[0], inLoop) {
        assert ss[..i][1..] == ss[1..][..i - 1];
        NestedPrefix(ss[1..], i - 1, inLoop);
      }
    }
  }

  lemma LeafShape(c: Cond, lo: nat)
    requires c.Compare? && !IsValue(c)
    ensures CondCode(c, lo, Empty, Empty) == Steps(c.pre) + [Cmp(c.rel, c.a, c.b, Empty, Empty)]
    ensures TrueList(c, lo) == CmpTrue(c.rel, c.a, c.b, lo + |c.pre|)
    ensures FalseList(c, lo) == CmpFalse(c.rel, c.a, c.b, lo + |c.pre|)
  {
  }

  lemma ValueShape(c: Cond, lo: nat)
    requires IsValue(c)
    ensures CondCode(c, lo, Empty, Empty) == Steps(c.pre) + [Cmp(Ne, ValueOf(c), Literal(0), Empty, Empty)]
    ensures TrueList(c, lo) == CmpTrue(Ne, ValueOf(c), Literal(0), lo + |c.pre|)
    ensures FalseList(c, lo) == CmpFalse(Ne, ValueOf(c), Literal(0), lo + |c.pre|)
  {
  }

  lemma NotShape(c: Cond, lo: nat)
    requires c.Not?
    ensures var d := c.arg;
            if IsValue(d) then
              CondCode(c, lo, Empty, Empty) == Steps(d.pre) + [Cmp(Eq, ValueOf(d), Literal(0), Empty, Empty)]
              && TrueList(c, lo) == CmpTrue(Eq, ValueOf(d), Literal(0), lo + |d.pre|)
              && FalseList(c, lo) == CmpFalse(Eq, ValueOf(d), Literal(0), lo + |d.pre|)
            else
              CondCode(c, lo, Empty, Empty) == CondCode(d, lo, Empty, Empty)
              && TrueList(c, lo) == FalseList(d, lo) && FalseList(c, lo) == TrueList(d, lo)
  {
  }
}
