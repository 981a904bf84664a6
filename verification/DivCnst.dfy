/** Multiplication and division by constants that are powers of two (opt/divcnst.c). */
module DivCnst {
  import opened Words

  const HALF := 0x8000_0000
  const WHOLE: nat := 0x1_0000_0000

  predicate IsWord(x: int) {
    -HALF <= x < HALF
  }

  // ---------- logarithms ----------

  lemma Pow2Values()
    ensures Pow2(1) == 2 && Pow2(2) == 4 && Pow2(4) == 16 && Pow2(8) == 256 && Pow2(16) == 65536 && Pow2(31) == HALF
    ensures Pow2(32) == WHOLE
  {
    assert Pow2(4) == 16;
    Pow2Sum(4, 4);
    Pow2Sum(8, 8);
    Pow2Sum(16, 16);
    assert Pow2(32) == 2 * Pow2(31);
  }

  lemma {:induction false} Pow2Sum(a: nat, b: nat)
    ensures Pow2(a + b) == Pow2(a) * Pow2(b)
    decreases a
  {
    if a > 0 {
      Pow2Sum(a - 1, b);
      assert 2 * (Pow2(a - 1) * Pow2(b)) == (2 * Pow2(a - 1)) * Pow2(b);
    }
  }

  lemma {:induction false} Pow2Less(a: nat, b: nat)
    requires a < b
    ensures Pow2(a) < Pow2(b) && 2 * Pow2(a) <= Pow2(b)
    decreases b
  {
    if a < b - 1 {
      Pow2Less(a, b - 1);
    }
  }

  /** floor_log2: five tests, each on the number of bits that may still be left. */
  method FloorLog2(x: nat) returns (t: int)
    requires x < WHOLE
    ensures x == 0 ==> t == -1
    ensures x > 0 ==> 0 <= t < 32 && Pow2(t) <= x < Pow2(t + 1)
  {
    hide Pow2;
    if x == 0 {
      return -1;
    }
    Pow2Values();
    t := 0;
    Pow2One();
    t := Narrow(x, t, 16);
    t := Narrow(x, t, 8);
    t := Narrow(x, t, 4);
    t := Narrow(x, t, 2);
    t := Narrow(x, t, 1);
  }

  lemma Pow2One()
    ensures Pow2(0) == 1
  {
  }

  /** One test: the logarithm lies in 2 * width values from t on; then in width values. */
  method Narrow(x: nat, t: nat, width: nat) returns (r: nat)
    requires t + 2 * width <= 32 && Pow2(t) <= x < Pow2(t + 2 * width)
    ensures r == t || r == t + width
    ensures Pow2(r) <= x < Pow2(r + width)
  {
    r := if x >= Pow2(t + width) then t + width else t;
    assert t + width + width == t + 2 * width;
  }

  /** x & y on the low n bits. */
  function BitAnd(x: nat, y: nat, n: nat): nat {
    if n == 0 then 0 else (x % 2) * (y % 2) + 2 * BitAnd(x / 2, y / 2, n - 1)
  }

  lemma {:induction false} AndComplement(x: nat, n: nat)
    requires x < Pow2(n)
    ensures BitAnd(x, Pow2(n) - 1 - x, n) == 0
    decreases n
  {
    if n > 0 {
      var y := Pow2(n) - 1 - x;
      AndComplement(x / 2, n - 1);
      assert y / 2 == Pow2(n - 1) - 1 - x / 2 && (x % 2) * (y % 2) == 0;
    }
  }

  /** x & -x is the lowest set bit: x is an odd multiple of it. */
  lemma {:induction false} AndNegative(x: nat, n: nat) returns (k: nat, m: nat)
    requires 0 < x < Pow2(n)
    ensures k < n && BitAnd(x, Pow2(n) - x, n) == Pow2(k) && x == Pow2(k) * (2 * m + 1)
    decreases n
  {
    var y := Pow2(n) - x;
    if x % 2 == 1 {
      k, m := 0, x / 2;
      AndComplement(x / 2, n - 1);
      assert y % 2 == 1 && y / 2 == Pow2(n - 1) - 1 - x / 2;
    } else {
      var h;
      h, m := AndNegative(x / 2, n - 1);
      k := h + 1;
      assert BitAnd(x, y, n) == 2 * BitAnd(x / 2, Pow2(n - 1) - x / 2, n - 1) by {
        assert y % 2 == 0 && y / 2 == Pow2(n - 1) - x / 2;
      }
      hide BitAnd;
      DoubledMultiple(Pow2(h), 2 * m + 1, x);
    }
  }

  lemma DoubledMultiple(p: nat, odd: nat, x: nat)
    requires x % 2 == 0 && x / 2 == p * odd
    ensures x == (2 * p) * odd
  {
    assert (2 * p) * odd == 2 * (p * odd);
  }

  lemma PowerOfTwoIsOneBit(j: nat, k: nat, m: nat)
    requires Pow2(j) == Pow2(k) * (2 * m + 1)
    ensures j == k && m == 0
  {
    AtLeastOnce(2 * m + 1, Pow2(k));
    if j < k {
      Pow2Less(j, k);
    } else if j > k {
      Pow2Sum(k, j - k);
      EvenPower(j - k);
      Cancel(Pow2(k), Pow2(j - k), 2 * m + 1);
    } else {
      Cancel(Pow2(k), 1, 2 * m + 1);
    }
  }

  lemma EvenPower(n: nat)
    requires n > 0
    ensures Pow2(n) % 2 == 0
  {
  }

  lemma Cancel(p: nat, x: nat, y: nat)
    requires p > 0 && p * x == p * y
    ensures x == y
  {
    assert p * y - p * x == (y - x) * p && p * x - p * y == (x - y) * p;
    if x < y {
      AtLeastOnce(y - x, p);
    } else if y < x {
      AtLeastOnce(x - y, p);
    }
  }

  /** The test x == (x & -x) finds the powers of two. */
  lemma LowBitTest(x: nat) returns (k: nat)
    requires 0 < x < WHOLE
    ensures x == BitAnd(x, WHOLE - x, 32) ==> k < 32 && x == Pow2(k)
    ensures x != BitAnd(x, WHOLE - x, 32) ==> forall j: nat :: x != Pow2(j)
  {
    hide BitAnd;
    Pow2Values();
    var m;
    k, m := AndNegative(x, 32);
    forall j: nat | x == Pow2(j) ensures x == BitAnd(x, WHOLE - x, 32) {
      PowerOfTwoIsOneBit(j, k, m);
    }
  }

  /** The quotient and remainder are determined. */
  lemma Division(x: int, m: nat, q: int, r: int)
    requires m > 0 && x == q * m + r && 0 <= r < m
    ensures x / m == q && x % m == r
  {
    var q', r' := x / m, x % m;
    assert x == q' * m + r';
    assert (q - q') * m == r' - r && (q' - q) * m == r - r';
    if q > q' {
      AtLeastOnce(q - q', m);
    } else if q < q' {
      AtLeastOnce(q' - q, m);
    }
  }

  lemma AtLeastOnce(a: int, m: nat)
    requires a >= 1
    ensures a * m >= m
  {
  }

  /** exact_log2: the exponent when x is a power of two, else -1. */
  method ExactLog2(x: nat) returns (t: int)
    requires x < WHOLE
    ensures t == -1 || (0 <= t < 32 && x == Pow2(t))
    ensures t == -1 ==> forall k: nat :: x != Pow2(k)
  {
    hide Pow2, BitAnd;
    var low := BitAnd(x, (WHOLE - x) % WHOLE, 32);
    if x == 0 {
      ZeroAnd(32);
      ZeroIsNoPower();
      t := FloorLog2(x);
      return;
    }
    ghost var k := LowBitTest(x);
    if x != low {
      return -1;
    }
    t := FloorLog2(x);
    SameLog(k, t);
  }

  lemma {:induction false} ZeroAnd(n: nat)
    ensures BitAnd(0, 0, n) == 0
  {
    if n > 0 {
      ZeroAnd(n - 1);
    }
  }

  lemma ZeroIsNoPower()
    ensures forall j: nat :: Pow2(j) != 0
  {
  }

  lemma SameLog(k: nat, t: nat)
    requires Pow2(t) <= Pow2(k) < Pow2(t + 1)
    ensures k == t
  {
    if k < t {
      Pow2Less(k, t);
    } else if k > t {
      if k > t + 1 {
        Pow2Less(t + 1, k);
      }
    }
  }

  // ---------- the instruction sequences ----------

  datatype Operand = Variable(v: nat) | Number(n: int)

  datatype Ins = Ins(op: BinOp, dst: nat, left: Operand, right: Operand)

  type Env = map<nat, int>

  function Look(env: Env, v: nat): int {
    if v in env then env[v] else 0
  }

  function Eval(env: Env, a: Operand): int {
    if a.Variable? then Look(env, a.v) else a.n
  }

  /** Division by zero gives what the machine gives; it does not matter here. */
  function Result(op: BinOp, a: int, b: int): int {
    if DividesByZero(op, b) then 0 else Apply(op, a, b)
  }

  function Run(code: seq<Ins>, env: Env): Env
    decreases |code|
  {
    if code == [] then env
    else
      var n := |code| - 1;
      var before := Run(code[..n], env);
      before[code[n].dst := Result(code[n].op, Eval(before, code[n].left), Eval(before, code[n].right))]
  }

  lemma RunMore(code: seq<Ins>, ins: Ins, env: Env)
    ensures var before := Run(code, env);
            Run(code + [ins], env) == before[ins.dst := Result(ins.op, Eval(before, ins.left), Eval(before, ins.right))]
  {
    assert (code + [ins])[..|code|] == code;
  }

  /** Only dst and the new variables change. */
  ghost predicate Leaves(env: Env, env': Env, dst: nat, fresh_: nat) {
    forall v: nat :: v < fresh_ && v != dst ==> Look(env', v) == Look(env, v)
  }

  ghost predicate UsesOld(a: Operand, fresh_: nat) {
    if a.Variable? then a.v < fresh_ else IsWord(a.n)
  }

  ghost predicate WordEnv(env: Env) {
    forall v :: v in env ==> IsWord(env[v])
  }

  // ---------- arithmetic of the sequences ----------

  lemma Shifts(x: int, k: nat)
    requires k < 32
    ensures Apply(Asr, x, k) == Wrap(x / Pow2(k)) && Apply(Lsr, x, k) == Wrap(Unsigned(x) / Pow2(k))
    ensures Apply(Lsl, x, k) == Wrap(x * Pow2(k))
  {
    hide Pow2, Wrap, Unsigned;
    assert k % 32 == k;
  }

  /** x * 2^k as a shift. */
  lemma ShiftIsMultiply(x: int, k: nat)
    requires k < 32
    ensures Apply(Lsl, x, k) == Apply(Mul, x, Pow2(k))
  {
    hide Pow2, Wrap, Unsigned;
    Shifts(x, k);
  }

  lemma Arithmetic(x: int, y: int)
    ensures Apply(Add, x, y) == Wrap(x + y) && Apply(Sub, x, y) == Wrap(x - y) && Apply(Mul, x, y) == Wrap(x * y)
  {
    hide Wrap;
  }

  /** ... and its negative. */
  lemma NegatedShift(x: int, k: nat)
    requires k < 32
    ensures Apply(Sub, 0, Apply(Lsl, x, k)) == Apply(Mul, x, 0 - Pow2(k))
  {
    hide Pow2, Wrap, Apply;
    Shifts(x, k);
    Arithmetic(0, Wrap(x * Pow2(k)));
    Arithmetic(x, 0 - Pow2(k));
    NegatedProduct(x, Pow2(k));
  }

  lemma NegatedProduct(x: int, p: nat)
    ensures Wrap(0 - Wrap(x * p)) == Wrap(x * (0 - p))
  {
    assert x * (0 - p) == -(x * p);
    NegatedWrap(x * p);
  }

  lemma NegatedWrap(y: int)
    ensures Wrap(0 - Wrap(y)) == Wrap(-y)
  {
  }

  /** The shifted sign, then its top k bits: 2^k - 1 for negative numbers, else nothing. */
  lemma Bias(x: int, k: nat)
    requires IsWord(x) && 1 <= k <= 31
    ensures Apply(Lsr, Apply(Asr, x, 31), 32 - k) == if x < 0 then Pow2(k) - 1 else 0
  {
    hide Pow2, Apply, Wrap;
    Pow2Values();
    Shifts(x, 31);
    SignWord(x);
    Shifts(Wrap(x / HALF), 32 - k);
    Pow2Sum(k, 32 - k);
    Pow2Positive(32 - k);
    TopBits(Pow2(k), Pow2(32 - k));
    if k < 31 {
      Pow2Less(k, 31);
    }
    WrapWord(Pow2(k) - 1);
    WrapWord(0);
  }

  lemma SignWord(x: int)
    requires IsWord(x)
    ensures Wrap(x / HALF) == if x < 0 then -1 else 0
  {
  }

  /** All ones, shifted down by the rest of the word. */
  lemma TopBits(p: nat, q: nat)
    requires p * q == WHOLE && q > 0
    ensures Unsigned(-1) / q == p - 1 && Unsigned(0) / q == 0
  {
    assert (p - 1) * q == p * q - q;
    Division(WHOLE - 1, q, p - 1, q - 1);
    Division(0, q, 0, 0);
  }

  lemma Pow2Positive(j: nat)
    ensures Pow2(j) > 0
  {
  }

  /** Rounding up a negative number by the bias is rounding toward zero. */
  lemma RoundTowardZero(x: int, p: nat)
    requires p > 0
    ensures (if x < 0 then (x + (p - 1)) / p else x / p) == Quotient(x, p)
  {
    if x < 0 {
      var q, r := -x / p, -x % p;
      assert -x == q * p + r;
      assert (-q) * p == -(q * p);
      Division(x + (p - 1), p, -q, p - 1 - r);
    }
  }

  lemma QuotientRange(x: int, p: nat)
    requires IsWord(x) && p >= 2
    ensures -HALF < Quotient(x, p) < HALF && Quotient(x, 0 - p) == -Quotient(x, p)
  {
    var y: nat := if x < 0 then -x else x;
    var q, r := y / p, y % p;
    assert y == q * p + r;
    Twice(q, p);
  }

  lemma Twice(q: nat, p: nat)
    requires p >= 2
    ensures q * p >= q * 2
  {
  }

  /** With the bias added, the arithmetic shift divides. */
  lemma BiasedShift(x: int, k: nat, bias: int)
    requires IsWord(x) && 1 <= k <= 31 && bias == if x < 0 then Pow2(k) - 1 else 0
    ensures Apply(Asr, Apply(Add, x, bias), k) == Quotient(x, Pow2(k))
    ensures Apply(Sub, 0, Quotient(x, Pow2(k))) == Quotient(x, 0 - Pow2(k))
  {
    hide Pow2, Wrap, Quotient;
    Pow2Values();
    if k > 1 {
      Pow2Less(1, k);
    }
    if k < 31 {
      Pow2Less(k, 31);
    }
    WrapWord(x + bias);
    Shifts(x + bias, k);
    RoundTowardZero(x, Pow2(k));
    QuotientRange(x, Pow2(k));
    WrapWord(Quotient(x, Pow2(k)));
    WrapWord(-Quotient(x, Pow2(k)));
  }

  // ---------- the rewrites ----------

  function Magnitude(n: int): nat {
    if n < 0 then -n else n
  }

  /** A constant operand whose magnitude is 2^k. */
  predicate PowerConstant(a: Operand, k: nat) {
    a.Number? && Magnitude(a.n) == Pow2(k)
  }

  ghost predicate Computes(code: seq<Ins>, ins: Ins, fresh_: nat) {
    forall env: Env :: WordEnv(env) ==>
      && Look(Run(code, env), ins.dst) == Result(ins.op, Eval(env, ins.left), Eval(env, ins.right))
      && Leaves(env, Run(code, env), ins.dst, fresh_)
  }

  ghost predicate WellFormed(ins: Ins, fresh_: nat) {
    ins.dst < fresh_ && UsesOld(ins.left, fresh_) && UsesOld(ins.right, fresh_)
  }

  predicate Without(code: seq<Ins>, op: BinOp) {
    forall i :: 0 <= i < |code| ==> code[i].op != op
  }

  /** The logarithm of a constant's magnitude, -1 for everything else. */
  method LogOf(a: Operand, ghost fresh_: nat) returns (log: int)
    requires UsesOld(a, fresh_)
    ensures log == -1 || (0 <= log < 32 && PowerConstant(a, log))
    ensures log == -1 ==> forall k: nat :: !PowerConstant(a, k)
  {
    log := -1;
    if a.Number? {
      log := ExactLog2(Magnitude(a.n));
    }
  }

  /** expand_mult: a constant power of two goes to the right and becomes a shift, with a
      subtraction from zero when it is negative. */
  method ExpandMult(ins: Ins, fresh_: nat) returns (code: seq<Ins>)
    requires ins.op == Mul && WellFormed(ins, fresh_)
    ensures Computes(code, ins, fresh_)
    ensures (forall k: nat :: !PowerConstant(ins.left, k)) && (exists k: nat :: k > 0 && PowerConstant(ins.right, k))
            ==> Without(code, Mul)
    ensures (exists k: nat :: k > 0 && PowerConstant(ins.left, k)) ==> Without(code, Mul)
    ensures |code| <= 2 && (|code| == 2 ==> Without(code, Mul))
  {
    hide Pow2, Computes, BitAnd;
    var x, c := ins.left, ins.right;
    var first := LogOf(ins.left, fresh_);
    if first != -1 {
      x, c := c, x;
    }
    var log := LogOf(c, fresh_);
    if log > 0 && c.n < 0 {
      code := [Ins(Lsl, fresh_, x, Number(log)), Ins(Sub, ins.dst, Number(0), Variable(fresh_))];
      NegativeMultiply(ins, x, c, log, fresh_);
    } else if log > 0 {
      code := [Ins(Lsl, ins.dst, x, Number(log))];
      PositiveMultiply(ins, x, c, log, fresh_);
    } else {
      code := [Ins(Mul, ins.dst, x, c)];
      PlainMultiply(ins, x, c, fresh_);
    }
    LogIs(ins.left, first);
    LogIs(c, log);
  }

  lemma LogIs(a: Operand, log: int)
    requires log == -1 || (0 <= log && PowerConstant(a, log))
    requires log == -1 ==> forall k: nat :: !PowerConstant(a, k)
    ensures forall k: nat :: PowerConstant(a, k) ==> log == k
  {
    forall k: nat | PowerConstant(a, k) ensures log == k {
      PowerUnique(k, log);
    }
  }

  lemma PowerUnique(k: nat, j: nat)
    requires Pow2(k) == Pow2(j)
    ensures k == j
  {
    if k < j {
      Pow2Less(k, j);
    } else if j < k {
      Pow2Less(j, k);
    }
  }

  lemma RunOne(a: Ins, env: Env)
    ensures Run([a], env) == env[a.dst := Result(a.op, Eval(env, a.left), Eval(env, a.right))]
  {
    RunMore([], a, env);
    assert [] + [a] == [a];
  }

  lemma RunTwo(a: Ins, b: Ins, env: Env)
    ensures var e := env[a.dst := Result(a.op, Eval(env, a.left), Eval(env, a.right))];
            Run([a, b], env) == e[b.dst := Result(b.op, Eval(e, b.left), Eval(e, b.right))]
  {
    RunOne(a, env);
    RunMore([a], b, env);
    assert [a] + [b] == [a, b];
  }

  lemma Commutes(x: int, y: int)
    ensures Apply(Mul, x, y) == Apply(Mul, y, x)
  {
    assert x * y == y * x;
  }

  lemma PlainMultiply(ins: Ins, x: Operand, c: Operand, fresh_: nat)
    requires ins.op == Mul && WellFormed(ins, fresh_)
    requires ((x == ins.left && c == ins.right) || (x == ins.right && c == ins.left))
    ensures Computes([Ins(Mul, ins.dst, x, c)], ins, fresh_)
  {
    hide Apply;
    forall env: Env | WordEnv(env)
      ensures Look(Run([Ins(Mul, ins.dst, x, c)], env), ins.dst) ==
                Result(ins.op, Eval(env, ins.left), Eval(env, ins.right))
      ensures Leaves(env, Run([Ins(Mul, ins.dst, x, c)], env), ins.dst, fresh_)
    {
      RunOne(Ins(Mul, ins.dst, x, c), env);
      Commutes(Eval(env, x), Eval(env, c));
    }
  }

  lemma PositiveMultiply(ins: Ins, x: Operand, c: Operand, k: nat, fresh_: nat)
    requires ins.op == Mul && WellFormed(ins, fresh_)
    requires ((x == ins.left && c == ins.right) || (x == ins.right && c == ins.left))
    requires k < 32 && PowerConstant(c, k) && c.n >= 0
    ensures Computes([Ins(Lsl, ins.dst, x, Number(k))], ins, fresh_)
  {
    hide Apply, Pow2;
    var code := [Ins(Lsl, ins.dst, x, Number(k))];
    forall env: Env | WordEnv(env)
      ensures Look(Run(code, env), ins.dst) == Result(ins.op, Eval(env, ins.left), Eval(env, ins.right))
      ensures Leaves(env, Run(code, env), ins.dst, fresh_)
    {
      RunOne(code[0], env);
      ShiftIsMultiply(Eval(env, x), k);
      Commutes(Eval(env, x), c.n);
    }
  }

  lemma NegativeMultiply(ins: Ins, x: Operand, c: Operand, k: nat, fresh_: nat)
    requires ins.op == Mul && WellFormed(ins, fresh_)
    requires ((x == ins.left && c == ins.right) || (x == ins.right && c == ins.left))
    requires k < 32 && PowerConstant(c, k) && c.n < 0
    ensures Computes([Ins(Lsl, fresh_, x, Number(k)), Ins(Sub, ins.dst, Number(0), Variable(fresh_))], ins, fresh_)
  {
    hide Apply, Pow2;
    var code := [Ins(Lsl, fresh_, x, Number(k)), Ins(Sub, ins.dst, Number(0), Variable(fresh_))];
    forall env: Env | WordEnv(env)
      ensures Look(Run(code, env), ins.dst) == Result(ins.op, Eval(env, ins.left), Eval(env, ins.right))
      ensures Leaves(env, Run(code, env), ins.dst, fresh_)
    {
      RunTwo(code[0], code[1], env);
      NegatedShift(Eval(env, x), k);
      Commutes(Eval(env, x), c.n);
    }
  }

  /** expand_divmod: a division by a constant power of two, greater than one, becomes
      shifts; the bias makes them round toward zero. */
  method ExpandDivmod(ins: Ins, fresh_: nat) returns (code: seq<Ins>)
    requires ins.op == Div && WellFormed(ins, fresh_)
    ensures Computes(code, ins, fresh_)
    ensures (exists k: nat :: k > 0 && PowerConstant(ins.right, k)) ==> Without(code, Div)
    ensures |code| <= 5 && (|code| > 1 ==> Without(code, Div))
  {
    hide Pow2, Computes, BitAnd;
    var log := LogOf(ins.right, fresh_);
    if log > 0 {
      code := [Ins(Asr, fresh_, ins.left, Number(31)), Ins(Lsr, fresh_ + 1, Variable(fresh_), Number(32 - log)),
               Ins(Add, fresh_ + 2, ins.left, Variable(fresh_ + 1))];
      if ins.right.n < 0 {
        code := code + [Ins(Asr, fresh_ + 3, Variable(fresh_ + 2), Number(log))];
        code := code + [Ins(Sub, ins.dst, Number(0), Variable(fresh_ + 3))];
        NegativeDivide(ins, log, fresh_, code);
      } else {
        code := code + [Ins(Asr, ins.dst, Variable(fresh_ + 2), Number(log))];
        PositiveDivide(ins, log, fresh_, code);
      }
    } else {
      code := [ins];
      Unchanged(ins, fresh_);
      LogIs(ins.right, log);
    }
  }

  lemma Unchanged(ins: Ins, fresh_: nat)
    requires WellFormed(ins, fresh_)
    ensures Computes([ins], ins, fresh_)
  {
    hide Result;
    forall env: Env | WordEnv(env)
      ensures Look(Run([ins], env), ins.dst) == Result(ins.op, Eval(env, ins.left), Eval(env, ins.right))
      ensures Leaves(env, Run([ins], env), ins.dst, fresh_)
    {
      RunOne(ins, env);
    }
  }

  /** The first three instructions leave the biased number in fresh + 2. */
  lemma Biased(ins: Ins, k: nat, fresh_: nat, env: Env)
    requires WellFormed(ins, fresh_) && 1 <= k <= 31
    ensures var code := [Ins(Asr, fresh_, ins.left, Number(31)), Ins(Lsr, fresh_ + 1, Variable(fresh_), Number(32 - k)),
                         Ins(Add, fresh_ + 2, ins.left, Variable(fresh_ + 1))];
            var x := Eval(env, ins.left);
            && Look(Run(code, env), fresh_ + 2) == Result(Add, x, Result(Lsr, Result(Asr, x, 31), 32 - k))
            && forall v: nat :: v < fresh_ ==> Look(Run(code, env), v) == Look(env, v)
  {
    hide Apply;
    var a, b, c := Ins(Asr, fresh_, ins.left, Number(31)), Ins(Lsr, fresh_ + 1, Variable(fresh_), Number(32 - k)),
      Ins(Add, fresh_ + 2, ins.left, Variable(fresh_ + 1));
    RunTwo(a, b, env);
    RunMore([a, b], c, env);
    assert [a, b] + [c] == [a, b, c];
  }

  lemma WordOf(env: Env, a: Operand, fresh_: nat)
    requires WordEnv(env) && UsesOld(a, fresh_)
    ensures IsWord(Eval(env, a))
  {
  }

  lemma PositiveDivide(ins: Ins, k: nat, fresh_: nat, code: seq<Ins>)
    requires ins.op == Div && WellFormed(ins, fresh_) && 1 <= k <= 31 && PowerConstant(ins.right, k) && ins.right.n >= 0
    requires code == [Ins(Asr, fresh_, ins.left, Number(31)), Ins(Lsr, fresh_ + 1, Variable(fresh_), Number(32 - k)),
                      Ins(Add, fresh_ + 2, ins.left, Variable(fresh_ + 1))]
                        + [Ins(Asr, ins.dst, Variable(fresh_ + 2), Number(k))]
    ensures Computes(code, ins, fresh_)
  {
    hide Apply, Pow2, Quotient;
    forall env: Env | WordEnv(env)
      ensures Look(Run(code, env), ins.dst) == Result(ins.op, Eval(env, ins.left), Eval(env, ins.right))
      ensures Leaves(env, Run(code, env), ins.dst, fresh_)
    {
      var x := Eval(env, ins.left);
      WordOf(env, ins.left, fresh_);
      Biased(ins, k, fresh_, env);
      RunMore(code[..3], code[3], env);
      assert code[..3] + [code[3]] == code;
      assert code[..3] == [Ins(Asr, fresh_, ins.left, Number(31)),
        Ins(Lsr, fresh_ + 1, Variable(fresh_), Number(32 - k)),
                           Ins(Add, fresh_ + 2, ins.left, Variable(fresh_ + 1))];
      Bias(x, k);
      BiasedShift(x, k, if x < 0 then Pow2(k) - 1 else 0);
      DivisionResult(x, ins.right.n, k);
    }
  }

  lemma NegativeDivide(ins: Ins, k: nat, fresh_: nat, code: seq<Ins>)
    requires ins.op == Div && WellFormed(ins, fresh_) && 1 <= k <= 31 && PowerConstant(ins.right, k) && ins.right.n < 0
    requires code == [Ins(Asr, fresh_, ins.left, Number(31)), Ins(Lsr, fresh_ + 1, Variable(fresh_), Number(32 - k)),
                      Ins(Add, fresh_ + 2, ins.left, Variable(fresh_ + 1))]
                        + [Ins(Asr, fresh_ + 3, Variable(fresh_ + 2), Number(k))]
                     + [Ins(Sub, ins.dst, Number(0), Variable(fresh_ + 3))]
    ensures Computes(code, ins, fresh_)
  {
    hide Apply, Pow2, Quotient;
    forall env: Env | WordEnv(env)
      ensures Look(Run(code, env), ins.dst) == Result(ins.op, Eval(env, ins.left), Eval(env, ins.right))
      ensures Leaves(env, Run(code, env), ins.dst, fresh_)
    {
      var x := Eval(env, ins.left);
      WordOf(env, ins.left, fresh_);
      Biased(ins, k, fresh_, env);
      RunMore(code[..3], code[3], env);
      RunMore(code[..4], code[4], env);
      assert code[..3] + [code[3]] == code[..4] && code[..4] + [code[4]] == code;
      assert code[..3] == [Ins(Asr, fresh_, ins.left, Number(31)),
        Ins(Lsr, fresh_ + 1, Variable(fresh_), Number(32 - k)),
                           Ins(Add, fresh_ + 2, ins.left, Variable(fresh_ + 1))];
      Bias(x, k);
      BiasedShift(x, k, if x < 0 then Pow2(k) - 1 else 0);
      DivisionResult(x, ins.right.n, k);
    }
  }

  lemma DivisionResult(x: int, c: int, k: nat)
    requires IsWord(x) && 1 <= k <= 31 && Magnitude(c) == Pow2(k)
    ensures Result(Div, x, c) == Quotient(x, if c < 0 then 0 - Pow2(k) else Pow2(k))
  {
    hide Pow2, Quotient, Wrap;
    Pow2Positive(k);
    if k > 1 {
      Pow2Less(1, k);
    }
    Pow2Values();
    QuotientRange(x, Pow2(k));
    WrapWord(Quotient(x, c));
  }
}
