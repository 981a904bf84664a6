/** Sparse conditional constant propagation (opt/sccp.c), scalar cases: the program
    it runs on, the lattice, and the rule of each instruction. */
module Sccp {
  import opened Cfg
  import opened Words

  // ---------- programs ----------

  datatype Instr =
    | Nop
    | Move(dst: nat, src: nat)
    | Bin(op: BinOp, dst: nat, left: nat, right: nat)
    | Un(unop: UnOp, dst: nat, arg: nat)
    | Unknown(dst: nat)
    | If(rel: Rel, left: nat, right: nat, yes: nat, no: nat)
    | Goto(target: nat)

  datatype Phi = Phi(dst: nat, args: seq<nat>)

  datatype Block = Block(phis: seq<Phi>, body: seq<Instr>)

  datatype Ref = PhiAt(block: nat, index: nat) | InstAt(block: nat, index: nat)

  datatype Target = NoVar | Var(v: nat)

  datatype Program = Program(g: Graph, code: seq<Block>, vars: nat, consts: map<nat, int>)
  {
    /** In SSA form: one instruction or phi defines a variable, none a constant. */
    ghost predicate Valid() {
      Shaped() && OneDefinition()
    }

    ghost predicate Shaped() {
      && g.Valid() && |code| == g.blocks
      && (forall r :: r in Refs() ==> RefOk(r))
      && (forall r :: r in Refs() && DefOf(r).Var? ==> DefOf(r).v !in consts)
    }

    ghost predicate OneDefinition() {
      forall r, s :: r in Refs() && s in Refs() && DefOf(r).Var? && DefOf(r) == DefOf(s) ==> r == s
    }

    ghost predicate RefOk(r: Ref)
      requires r in Refs() && g.Valid() && |code| == g.blocks
    {
      && (DefOf(r).Var? ==> DefOf(r).v < vars)
      && (forall v :: v in Reads(r) ==> v < vars)
      && (r.PhiAt? ==> |code[r.block].phis[r.index].args| == |g.preds[r.block]|)
      && (r.InstAt? ==> match code[r.block].body[r.index]
                        case If(_, _, _, yes, no) => yes < g.blocks && no < g.blocks
                        case Goto(target) => target < g.blocks
                        case _ => true)
    }

    function Refs(): set<Ref> {
      (set b, k | 0 <= b < |code| && 0 <= k < |code[b].phis| :: PhiAt(b, k))
      + (set b, k | 0 <= b < |code| && 0 <= k < |code[b].body| :: InstAt(b, k))
    }

    function DefOf(r: Ref): Target
      requires r in Refs()
    {
      if r.PhiAt? then Var(code[r.block].phis[r.index].dst)
      else match code[r.block].body[r.index]
        case Move(d, _) => Var(d)
        case Bin(_, d, _, _) => Var(d)
        case Un(_, d, _) => Var(d)
        case Unknown(d) => Var(d)
        case _ => NoVar
    }

    function Reads(r: Ref): seq<nat>
      requires r in Refs()
    {
      if r.PhiAt? then code[r.block].phis[r.index].args
      else match code[r.block].body[r.index]
        case Move(_, s) => [s]
        case Bin(_, _, a, b) => [a, b]
        case Un(_, _, a) => [a]
        case If(_, a, b, _, _) => [a, b]
        case _ => []
    }

    /** The `_uses` of a variable. */
    function UsesOf(v: nat): set<Ref> {
      set r | r in Refs() && v in Reads(r)
    }

    predicate Defined(v: nat) {
      exists r :: r in Refs() && DefOf(r) == Var(v)
    }
  }

  // ---------- the lattice ----------

  datatype Level = Undef | Constant | Overdefined

  /** ConstantVal: all zero at first, with a type that differs from every constant's. */
  datatype Recorded = Nothing | Word(w: int)

  datatype Info = Info(level: Level, rec: Recorded)

  datatype Value = Bottom | Known(w: int) | Top

  function ValueOf(i: Info): Value {
    match i.level
    case Undef => Bottom
    case Constant => if i.rec.Word? then Known(i.rec.w) else Top
    case Overdefined => Top
  }

  predicate Leq(a: Value, b: Value) {
    a.Bottom? || a == b || b.Top?
  }

  function Join(a: Value, b: Value): (r: Value)
    ensures Leq(a, r) && Leq(b, r)
    ensures forall c :: Leq(a, c) && Leq(b, c) ==> Leq(r, c)
  {
    if a.Bottom? then b else if b.Bottom? || a == b then a else Top
  }

  /** The move rule, branch by branch. */
  function MoveRule(dst: Info, src: Info): Info {
    if src.level.Overdefined? && !dst.level.Overdefined? then dst.(level := Overdefined)
    else if src.level.Constant? && (dst.level.Undef? || dst.rec != src.rec) then Info(Constant, src.rec)
    else if dst.level.Constant? && dst.rec != src.rec then dst.(level := Overdefined)
    else dst
  }

  function Num(rec: Recorded): int {
    if rec.Word? then rec.w else 0
  }

  /** What the arithmetic cases do once both operands are constant. */
  function FoldRule(dst: Info, folded: Recorded): Info {
    if dst.level.Constant? && dst.rec != folded then dst.(level := Overdefined)
    else if dst.level.Undef? || dst.rec != folded then Info(Constant, folded)
    else dst
  }

  function BinRule(op: BinOp, dst: Info, a: Info, b: Info): Info {
    if (a.level.Overdefined? || b.level.Overdefined?) && !dst.level.Overdefined? then dst.(level := Overdefined)
    else if a.level.Constant? && b.level.Constant? then
      if DividesByZero(op, Num(b.rec)) then (if dst.level.Overdefined? then dst else dst.(level := Overdefined))
      else FoldRule(dst, Word(Apply(op, Num(a.rec), Num(b.rec))))
    else dst
  }

  function UnRule(op: UnOp, dst: Info, a: Info): Info {
    if a.level.Overdefined? && !dst.level.Overdefined? then dst.(level := Overdefined)
    else if a.level.Constant? then FoldRule(dst, Word(ApplyUn(op, Num(a.rec))))
    else dst
  }

  /** The records after the rule of an instruction has been applied to its target. */
  function Ruled(info: seq<Info>, i: Instr): (r: seq<Info>)
    ensures |r| == |info|
  {
    match i
    case Move(d, s) => if d < |info| && s < |info| then info[d := MoveRule(info[d], info[s])] else info
    case Bin(op, d, a, b) =>
      if d < |info| && a < |info| && b < |info| then info[d := BinRule(op, info[d], info[a], info[b])] else info
    case Un(op, d, a) => if d < |info| && a < |info| then info[d := UnRule(op, info[d], info[a])] else info
    case Unknown(d) => if d < |info| then info[d := info[d].(level := Overdefined)] else info
    case _ => info
  }

  // ---------- what an instruction should give ----------

  type Edges = set<(nat, nat)>

  function Vals(info: seq<Info>, v: nat): Value {
    if v < |info| then ValueOf(info[v]) else Top
  }

  function BinValue(op: BinOp, a: Value, b: Value): Value {
    if a.Top? || b.Top? then Top
    else if a.Known? && b.Known? then (if DividesByZero(op, b.w) then Top else Known(Apply(op, a.w, b.w)))
    else Bottom
  }

  function UnValue(op: UnOp, a: Value): Value {
    match a
    case Top => Top
    case Bottom => Bottom
    case Known(w) => Known(ApplyUn(op, w))
  }

  /** The edge at position j of the block's incoming edges has been found executable. */
  predicate Feasible(g: Graph, exec: Edges, b: nat, j: nat)
    requires b < |g.preds| && j < |g.preds[b]| && g.preds[b][j] < |g.edges|
  {
    (g.edges[g.preds[b][j]].src, b) in exec
  }

  /** The join over the executable edges among the first n. */
  function PhiValue(g: Graph, info: seq<Info>, exec: Edges, b: nat, args: seq<nat>, n: nat): Value
    requires b < |g.preds| && n <= |g.preds[b]| == |args| && forall j :: 0 <= j < n ==> g.preds[b][j] < |g.edges|
  {
    if n == 0 then Bottom
    else
      Join(PhiValue(g, info, exec, b, args, n - 1), if Feasible(g, exec, b, n - 1) then Vals(info, args[n - 1])
        else Bottom)
  }

  function Expected(p: Program, info: seq<Info>, exec: Edges, r: Ref): Value
    requires p.Valid() && r in p.Refs() && p.DefOf(r).Var?
  {
    if r.PhiAt? then
      RefShape(p, r);
      PhiValue(p.g, info, exec, r.block, p.code[r.block].phis[r.index].args, |p.g.preds[r.block]|)
    else match p.code[r.block].body[r.index]
      case Move(_, s) => Vals(info, s)
      case Bin(op, _, a, b) => BinValue(op, Vals(info, a), Vals(info, b))
      case Un(op, _, a) => UnValue(op, Vals(info, a))
      case Unknown(_) => Top
  }

  lemma RefShape(p: Program, r: Ref)
    requires p.Valid() && r in p.Refs()
    ensures r.block < p.g.blocks == |p.g.preds| == |p.code| && p.RefOk(r)
    ensures forall j :: 0 <= j < |p.g.preds[r.block]| ==> p.g.preds[r.block][j] < |p.g.edges|
  {
    hide Graph.ListsDistinct;
  }

  /** The blocks a jump may go to, as far as the lattice tells. */
  function JumpTargets(p: Program, info: seq<Info>, r: Ref): set<nat>
    requires r in p.Refs()
  {
    if r.PhiAt? then {}
    else match p.code[r.block].body[r.index]
      case If(rel, a, b, yes, no) =>
        var x, y := Vals(info, a), Vals(info, b);
        if x.Top? || y.Top? then {yes, no}
        else if x.Known? && y.Known? then (if Holds(rel, x.w, y.w) then {yes} else {no})
        else {}
      case Goto(t) => {t}
      case _ => {}
  }

  // ---------- the branches a comparison can take ----------

  /** Some words that the values stand for make the comparison come out this way. */
  ghost predicate Possible(rel: Rel, x: Value, y: Value, way: bool) {
    exists a, b :: IsWord(a) && IsWord(b) && Leq(Known(a), x) && Leq(Known(b), y) && Holds(rel, a, b) == way
  }

  predicate WordValue(x: Value) {
    x.Known? ==> IsWord(x.w)
  }

  /** The comparison with a constant at the end of the range comes out one way only. */
  predicate Decided(rel: Rel, x: Value, y: Value) {
    || (x.Known? && y.Top? && ((x.w == 0x7FFF_FFFF && rel in {Lt, Ge}) || (x.w == -0x8000_0000 && rel in {Gt, Le})))
    || (x.Top? && y.Known? && ((y.w == -0x8000_0000 && rel in {Lt, Ge}) || (y.w == 0x7FFF_FFFF && rel in {Gt, Le})))
  }

  /** Where both branches are taken although fewer are possible. */
  predicate Loose(rel: Rel, x: Value, y: Value) {
    (x.Top? && y.Bottom?) || (x.Bottom? && y.Top?) || Decided(rel, x, y)
  }

  /** What the rule for jumps answers for one branch. */
  predicate Taken(rel: Rel, x: Value, y: Value, way: bool) {
    x.Top? || y.Top? || (x.Known? && y.Known? && Holds(rel, x.w, y.w) == way)
  }

  lemma PossibleTaken(rel: Rel, x: Value, y: Value, way: bool)
    ensures Possible(rel, x, y, way) ==> Taken(rel, x, y, way)
  {
  }

  lemma Witness(rel: Rel, x: Value, y: Value, way: bool, a: int, b: int)
    requires IsWord(a) && IsWord(b) && Leq(Known(a), x) && Leq(Known(b), y) && Holds(rel, a, b) == way
    ensures Possible(rel, x, y, way)
  {
  }

  lemma TakenPossible(rel: Rel, x: Value, y: Value, way: bool)
    requires WordValue(x) && WordValue(y) && Taken(rel, x, y, way) && !Loose(rel, x, y)
    ensures Possible(rel, x, y, way)
  {
    hide Possible;
    if x.Known? && y.Known? {
      Witness(rel, x, y, way, x.w, y.w);
    } else if x.Known? {
      var b := if Holds(rel, x.w, x.w) == way then x.w
               else if x.w < 0x7FFF_FFFF && Holds(rel, x.w, x.w + 1) == way then x.w + 1 else x.w - 1;
      Witness(rel, x, y, way, x.w, b);
    } else if y.Known? {
      var a := if Holds(rel, y.w, y.w) == way then y.w
               else if y.w < 0x7FFF_FFFF && Holds(rel, y.w + 1, y.w) == way then y.w + 1 else y.w - 1;
      Witness(rel, x, y, way, a, y.w);
    } else {
      var a := if Holds(rel, 0, 0) == way then 0 else if Holds(rel, 1, 0) == way then 1 else -1;
      Witness(rel, x, y, way, a, 0);
    }
  }

  /** A conditional jump can go to every target that some operand values lead to; it has no
      other target exactly when the rule is not loose. */
  lemma TargetsPossible(p: Program, info: seq<Info>, r: Ref, way: bool)
    requires r in p.Refs() && r.InstAt? && p.code[r.block].body[r.index].If?
    ensures match p.code[r.block].body[r.index]
            case If(rel, a, b, yes, no) =>
              var x, y := Vals(info, a), Vals(info, b);
              && (Possible(rel, x, y, way) ==> (if way then yes else no) in JumpTargets(p, info, r))
              && (WordValue(x) && WordValue(y) && yes != no ==>
                   ((forall w :: (if w then yes else no) in JumpTargets(p, info, r) ==> Possible(rel, x, y, w))
                    <==> !Loose(rel, x, y)))
  {
    hide Possible;
    match p.code[r.block].body[r.index]
    case If(rel, a, b, yes, no) =>
      var x, y := Vals(info, a), Vals(info, b);
      PossibleTaken(rel, x, y, way);
      if WordValue(x) && WordValue(y) && yes != no {
        if Loose(rel, x, y) {
          LooseMisses(rel, x, y);
        } else {
          forall w | (if w then yes else no) in JumpTargets(p, info, r) ensures Possible(rel, x, y, w) {
            TakenPossible(rel, x, y, w);
          }
        }
      }
  }

  lemma LooseMisses(rel: Rel, x: Value, y: Value)
    requires Loose(rel, x, y)
    ensures !Possible(rel, x, y, true) || !Possible(rel, x, y, false)
  {
  }

  // ---------- monotonicity ----------

  ghost predicate Higher(info: seq<Info>, info': seq<Info>) {
    |info| == |info'| && forall v :: 0 <= v < |info| ==> Leq(ValueOf(info[v]), ValueOf(info'[v]))
  }

  lemma {:induction false} PhiMonotone(g: Graph, info: seq<Info>, info': seq<Info>, exec: Edges, exec': Edges, b: nat,
                                       args: seq<nat>, n: nat)
    requires b < |g.preds| && n <= |g.preds[b]| == |args| && forall j :: 0 <= j < n ==> g.preds[b][j] < |g.edges|
    requires Higher(info, info') && exec <= exec'
    ensures Leq(PhiValue(g, info, exec, b, args, n), PhiValue(g, info', exec', b, args, n))
  {
    if n > 0 {
      PhiMonotone(g, info, info', exec, exec', b, args, n - 1);
    }
  }

  lemma ExpectedMonotone(p: Program, info: seq<Info>, info': seq<Info>, exec: Edges, exec': Edges, r: Ref)
    requires p.Valid() && r in p.Refs() && p.DefOf(r).Var? && Higher(info, info') && exec <= exec'
    ensures Leq(Expected(p, info, exec, r), Expected(p, info', exec', r))
  {
    hide Graph.Valid, Apply;
    RefShape(p, r);
    if r.PhiAt? {
      PhiMonotone(p.g, info, info', exec, exec', r.block, p.code[r.block].phis[r.index].args, |p.g.preds[r.block]|);
    }
  }

  lemma {:induction false} PhiDepends(g: Graph, info: seq<Info>, info': seq<Info>, exec: Edges, exec': Edges, b: nat,
                                      args: seq<nat>, n: nat)
    requires b < |g.preds| && n <= |g.preds[b]| == |args| && forall j :: 0 <= j < n ==> g.preds[b][j] < |g.edges|
    requires forall v :: v in args ==> Vals(info, v) == Vals(info', v)
    requires forall s: nat :: (s, b) in exec <==> (s, b) in exec'
    ensures PhiValue(g, info, exec, b, args, n) == PhiValue(g, info', exec', b, args, n)
  {
    if n > 0 {
      PhiDepends(g, info, info', exec, exec', b, args, n - 1);
      assert args[n - 1] in args;
    }
  }

  /** The value depends only on what the instruction reads and, for a phi, on the edges
      into its block. */
  lemma ExpectedDepends(p: Program, info: seq<Info>, info': seq<Info>, exec: Edges, exec': Edges, r: Ref)
    requires p.Valid() && r in p.Refs() && p.DefOf(r).Var?
    requires forall v :: v in p.Reads(r) ==> Vals(info, v) == Vals(info', v)
    requires r.PhiAt? ==> forall s: nat :: (s, r.block) in exec <==> (s, r.block) in exec'
    ensures Expected(p, info, exec, r) == Expected(p, info', exec', r)
  {
    hide Graph.Valid, Apply;
    RefShape(p, r);
    if r.PhiAt? {
      PhiDepends(p.g, info, info', exec, exec', r.block, p.code[r.block].phis[r.index].args, |p.g.preds[r.block]|);
    } else {
      ReadsSeen(p, r);
    }
  }

  lemma ReadsSeen(p: Program, r: Ref)
    requires r in p.Refs() && r.InstAt?
    ensures match p.code[r.block].body[r.index]
            case Move(_, s) => s in p.Reads(r)
            case Bin(_, _, a, b) => a in p.Reads(r) && b in p.Reads(r)
            case Un(_, _, a) => a in p.Reads(r)
            case If(_, a, b, _, _) => a in p.Reads(r) && b in p.Reads(r)
            case _ => true
  {
    assert forall k :: 0 <= k < |p.Reads(r)| ==> p.Reads(r)[k] in p.Reads(r);
  }

  lemma TargetsDepend(p: Program, info: seq<Info>, info': seq<Info>, r: Ref)
    requires r in p.Refs() && forall v :: v in p.Reads(r) ==> Vals(info, v) == Vals(info', v)
    ensures JumpTargets(p, info, r) == JumpTargets(p, info', r)
  {
    if r.InstAt? {
      ReadsSeen(p, r);
    }
  }

  /** The executable edges that a phi has, and what their operands hold. */
  lemma {:induction false} PhiFacts(g: Graph, info: seq<Info>, exec: Edges, b: nat, args: seq<nat>, n: nat)
    requires b < |g.preds| && n <= |g.preds[b]| == |args| && forall j :: 0 <= j < n ==> g.preds[b][j] < |g.edges|
    ensures var v := PhiValue(g, info, exec, b, args, n);
            && (v.Bottom? ==> forall j :: 0 <= j < n && Feasible(g, exec, b, j) ==> Vals(info, args[j]).Bottom?)
            && (forall j :: 0 <= j < n && Feasible(g, exec, b, j) ==> Leq(Vals(info, args[j]), v))
            && (v.Known? ==> exists j :: 0 <= j < n && Feasible(g, exec, b, j) && Vals(info, args[j]) == v)
            && (v.Top? ==> exists i, j :: 0 <= i < n && 0 <= j < n && Feasible(g, exec, b, i) && Feasible(g, exec, b, j)
                             && !Vals(info, args[i]).Bottom? && !Vals(info, args[j]).Bottom?
                             && (Vals(info, args[i]).Top? || Vals(info, args[i]) != Vals(info, args[j])))
  {
    if n > 0 {
      PhiFacts(g, info, exec, b, args, n - 1);
    }
  }
}
