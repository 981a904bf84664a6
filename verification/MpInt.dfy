/** Natural numbers in base 2^15 (the mp_ functions of backend/ra-colorize.c). Digits are
    16-bit words and products are taken in 32 bits, both written out. */
module MpInt {
  const BASE: nat := 0x8000
  const SHORT: nat := 0x1_0000
  const WORD: nat := 0x1_0000_0000

  function Power(b: nat, n: nat): nat {
    if n == 0 then 1 else b * Power(b, n - 1)
  }

  /** The number that a list of digits stands for, least significant digit first. */
  function Value(s: seq<nat>): nat {
    if s == [] then 0 else s[0] + BASE * Value(s[1..])
  }

  predicate Digits(s: seq<nat>) {
    forall i :: 0 <= i < |s| ==> s[i] < BASE
  }

  lemma PowerPositive(n: nat)
    ensures Power(BASE, n) >= 1
  {
    if n > 0 {
      PowerPositive(n - 1);
    }
  }

  lemma PowerNext(n: nat)
    ensures Power(BASE, n + 1) == BASE * Power(BASE, n)
  {
  }

  /** One more digit at the top. */
  lemma {:induction false} ValueSnoc(s: seq<nat>, d: nat)
    ensures Value(s + [d]) == Value(s) + d * Power(BASE, |s|)
    decreases |s|
  {
    if s == [] {
      assert s + [d] == [d];
      assert [d][1..] == [];
    } else {
      ValueSnoc(s[1..], d);
      assert (s + [d])[1..] == s[1..] + [d];
      MoveFactor(d, Power(BASE, |s| - 1));
    }
  }

  lemma MoveFactor(d: nat, p: nat)
    ensures BASE * (d * p) == d * (BASE * p)
  {
  }

  lemma ValuePrefix(s: seq<nat>, i: nat)
    requires i < |s|
    ensures Value(s[..i + 1]) == Value(s[..i]) + s[i] * Power(BASE, i)
  {
    assert s[..i + 1] == s[..i] + [s[i]];
    ValueSnoc(s[..i], s[i]);
  }

  lemma {:induction false} ValueBound(s: seq<nat>)
    requires Digits(s)
    ensures Value(s) < Power(BASE, |s|)
    decreases |s|
  {
    if s != [] {
      ValueBound(s[1..]);
    }
  }

  lemma {:induction false} ZerosAbove(s: seq<nat>, i: nat)
    requires i <= |s| && forall k :: i <= k < |s| ==> s[k] == 0
    ensures Value(s) == Value(s[..i])
    decreases |s| - i
  {
    if i == |s| {
      assert s[..i] == s;
    } else {
      ZerosAbove(s, i + 1);
      ValuePrefix(s, i);
    }
  }

  /** A carry moves from one digit to the next without changing the number. */
  lemma Carry(v: nat, p: nat, sum: nat)
    ensures v + (sum % BASE) * p + (sum / BASE) * (BASE * p) == v + sum * p
  {
    var q, r := sum / BASE, sum % BASE;
    assert sum == q * BASE + r;
    assert q * (BASE * p) == (q * BASE) * p;
    assert (q * BASE) * p + r * p == sum * p by { Distribute(q * BASE, r, p); }
  }

  lemma Distribute(x: nat, y: nat, p: nat)
    ensures (x + y) * p == x * p + y * p
  {
  }

  /** mp_int. The objects are not changed once they have been computed. */
  class Mp {
    var used: nat
    var dp: array<nat>

    /** Digits below the base and, after mp_clamp, no leading zeros. */
    ghost predicate Valid()
      reads this, dp
    {
      used <= dp.Length && Digits(dp[..]) && (used > 0 ==> dp[used - 1] != 0)
    }

    ghost function Num(): nat
      reads this, dp
      requires used <= dp.Length
    {
      Value(dp[..used])
    }

    /** mp_init_size. */
    constructor (size: nat)
      ensures Valid() && fresh(dp) && dp.Length == size && used == 0 && Num() == 0
      ensures forall i :: 0 <= i < size ==> dp[i] == 0
    {
      used := 0;
      dp := new nat[size](_ => 0);
    }

    /** mp_grow, for a number that has to hold `size` digits. */
    method Grow(size: nat)
      requires used <= dp.Length && Digits(dp[..])
      modifies this
      ensures used == old(used) && dp.Length >= size && Digits(dp[..])
      ensures dp == old(dp) || fresh(dp)
      ensures dp.Length >= old(dp.Length) && dp[..old(dp.Length)] == old(dp[..])
    {
      if dp.Length < size {
        var old_ := dp;
        dp := new nat[size](i requires 0 <= i reads old_ => if i < old_.Length then old_[i] else 0);
        assert dp[..old_.Length] == old_[..];
      } else {
        assert dp[..dp.Length] == dp[..];
      }
    }

    /** mp_clamp. */
    method Clamp()
      requires used <= dp.Length && Digits(dp[..])
      modifies this`used
      ensures Valid() && Num() == old(Num())
    {
      while used > 0 && dp[used - 1] == 0
        invariant used <= old(used) && Num() == old(Num())
        decreases used
      {
        ValuePrefix(dp[..], used - 1);
        assert dp[..][..used] == dp[..used] && dp[..][..used - 1] == dp[..used - 1];
        used := used - 1;
      }
    }
  }

  /** mp_set_u32 into a number with room for all digits. */
  method SetU32(a: Mp, b: nat)
    requires b < WORD && b < Power(BASE, a.dp.Length)
    modifies a, a.dp
    ensures a.Valid() && a.Num() == b && a.dp == old(a.dp)
  {
    var i: nat, rest: nat := 0, b;
    while rest != 0
      invariant 0 <= i <= a.dp.Length && a.dp == old(a.dp) && rest < WORD
      invariant Digits(a.dp[..i]) && Value(a.dp[..i]) + rest * Power(BASE, i) == b
      invariant i > 0 ==> a.dp[i - 1] != 0 || rest != 0
      decreases rest
    {
      assert i < a.dp.Length by {
        if i >= a.dp.Length {
          assert rest * Power(BASE, i) >= Power(BASE, i) by { AtLeast(rest, Power(BASE, i)); }
        }
      }
      ghost var before := a.dp[..i];
      a.dp[i] := rest % BASE;
      assert a.dp[..i] == before;
      ValuePrefix(a.dp[..], i);
      assert a.dp[..][..i] == a.dp[..i] && a.dp[..][..i + 1] == a.dp[..i + 1];
      Carry(Value(before), Power(BASE, i), rest);
      rest := rest / BASE;
      i := i + 1;
    }
    ghost var low := a.dp[..i];
    a.used := i;
    var k := i;
    while k < a.dp.Length
      invariant i <= k <= a.dp.Length && a.dp == old(a.dp) && a.used == i && a.dp[..i] == low
      invariant forall j :: i <= j < k ==> a.dp[j] == 0
    {
      a.dp[k] := 0;
      k := k + 1;
    }
    assert Digits(a.dp[..]) by {
      forall j | 0 <= j < a.dp.Length ensures a.dp[j] < BASE {
        if j < i {
          assert a.dp[j] == low[j];
        }
      }
    }
    if i > 0 {
      assert a.dp[i - 1] == low[i - 1];
    }
  }

  lemma AtLeast(x: nat, y: nat)
    requires x >= 1
    ensures x * y >= y
  {
  }

  /** mp_add: the digits of both, with a carry, then those of the longer one. */
  method Add(a: Mp, b: Mp) returns (c: Mp)
    requires a.Valid() && b.Valid()
    ensures fresh(c) && fresh(c.dp) && c.Valid() && c.Num() == a.Num() + b.Num()
  {
    var x, y := a, b;
    if a.used < b.used {
      x, y := b, a;
    }
    c := new Mp(1);
    c.Grow(x.used + 1);
    c.used := x.used + 1;
    var u := AddDigits(x, y, c);
    assert c.dp[..x.used + 1] == c.dp[..x.used] + [u];
    ValueSnoc(c.dp[..x.used], u);
    c.Clamp();
  }

  /** Both loops of mp_add and the last carry. */
  method AddDigits(x: Mp, y: Mp, c: Mp) returns (u: nat)
    requires x.Valid() && y.Valid() && y.used <= x.used < c.dp.Length && c.used == x.used + 1
    requires c != x && c != y && c.dp != x.dp && c.dp != y.dp && Digits(c.dp[..])
    modifies c.dp
    ensures Digits(c.dp[..]) && c.dp[x.used] == u
    ensures Value(c.dp[..x.used]) + u * Power(BASE, x.used) == x.Num() + y.Num()
  {
    hide Added, Value, Power;
    u := 0;
    ghost var xs, ys := x.dp[..x.used], y.dp[..y.used];
    AddStart(xs, ys);
    assert c.dp[..0] == [];
    var i := 0;
    while i < x.used
      invariant 0 <= i <= x.used && u <= 1 && Digits(c.dp[..])
      invariant x.dp[..x.used] == xs && y.dp[..y.used] == ys
      invariant Added(xs, ys, c.dp[..i], u)
    {
      // the two loops of the source differ in whether the shorter number still has a digit
      var sum := (if i < y.used then x.dp[i] + y.dp[i] + u else x.dp[i] + u) % SHORT;
      ghost var before := c.dp[..i];
      assert x.dp[i] == xs[i] && (i < y.used ==> y.dp[i] == ys[i]);
      AddStep(xs, ys, before, u);
      c.dp[i] := sum % BASE;
      assert c.dp[..i] == before && c.dp[..i + 1] == before + [c.dp[i]];
      u := sum / BASE;
      i := i + 1;
    }
    ghost var done := c.dp[..i];
    AddEnd(xs, ys, done, u);
    c.dp[i] := u;
    assert c.dp[..i] == done;
  }

  /** The digits c and the carry u are the sum of the low digits of both numbers. */
  ghost predicate Added(xs: seq<nat>, ys: seq<nat>, c: seq<nat>, u: nat) {
    |c| <= |xs| && Value(c) + u * Power(BASE, |c|) == Value(xs[..|c|]) + Value(Take(ys, |c|))
  }

  lemma AddStart(xs: seq<nat>, ys: seq<nat>)
    ensures Added(xs, ys, [], 0)
  {
    assert xs[..0] == [] && Take(ys, 0) == [];
  }

  lemma AddEnd(xs: seq<nat>, ys: seq<nat>, c: seq<nat>, u: nat)
    requires Added(xs, ys, c, u) && |c| == |xs| && |ys| <= |xs|
    ensures Value(c) + u * Power(BASE, |xs|) == Value(xs) + Value(ys)
  {
    assert xs[..|c|] == xs && Take(ys, |c|) == ys;
  }

  /** The first i digits, or all if there are fewer. */
  function Take(s: seq<nat>, i: nat): seq<nat> {
    if i <= |s| then s[..i] else s
  }

  lemma AddStep(xs: seq<nat>, ys: seq<nat>, c: seq<nat>, u: nat)
    requires Digits(xs) && Digits(ys) && |c| < |xs| && u <= 1 && Added(xs, ys, c, u)
    ensures var sum := xs[|c|] + (if |c| < |ys| then ys[|c|] else 0) + u;
            && sum < SHORT && sum / BASE <= 1 && Added(xs, ys, c + [sum % BASE], sum / BASE)
  {
    hide Value, Power;
    var i := |c|;
    var y := if i < |ys| then ys[i] else 0;
    var sum, p := xs[i] + y + u, Power(BASE, i);
    ValueSnoc(c, sum % BASE);
    ValuePrefix(xs, i);
    if i < |ys| {
      ValuePrefix(ys, i);
    } else {
      assert Take(ys, i + 1) == Take(ys, i);
    }
    assert Value(Take(ys, i + 1)) == Value(Take(ys, i)) + y * p;
    PowerNext(i);
    Carry(Value(c), p, sum);
    Distribute(xs[i] + y, u, p);
    Distribute(xs[i], y, p);
  }

  /** mp_mul: one row per digit of a, added into the digits found so far. */
  method Mul(a: Mp, b: Mp) returns (c: Mp)
    requires a.Valid() && b.Valid()
    ensures fresh(c) && fresh(c.dp) && c.Valid() && c.Num() == a.Num() * b.Num()
  {
    hide Value, Power;
    var digs := a.used + b.used + 1;
    c := new Mp(digs);
    c.used := digs;
    ghost var xs, ys := a.dp[..a.used], b.dp[..b.used];
    NothingYet(c.dp[..b.used], xs, ys);
    var ix := 0;
    while ix < a.used
      invariant 0 <= ix <= a.used && a.dp[..a.used] == xs && b.dp[..b.used] == ys
      invariant c.dp.Length == c.used == digs && fresh(c) && fresh(c.dp) && Digits(c.dp[..])
      invariant Value(c.dp[..ix + b.used]) == Value(xs[..ix]) * Value(ys)
      invariant forall k :: ix + b.used <= k < digs ==> c.dp[k] == 0
    {
      MulRow(a, b, c, ix);
      RowAdds(xs, ys, ix);
      ix := ix + 1;
    }
    assert xs[..ix] == xs;
    ZerosAbove(c.dp[..], ix + b.used);
    assert c.dp[..][..ix + b.used] == c.dp[..ix + b.used] && c.dp[..c.used] == c.dp[..];
    c.Clamp();
  }

  lemma NothingYet(t: seq<nat>, xs: seq<nat>, ys: seq<nat>)
    requires forall k :: 0 <= k < |t| ==> t[k] == 0
    ensures Value(t) == Value(xs[..0]) * Value(ys)
  {
    ZerosAbove(t, 0);
    assert t[..0] == [] && xs[..0] == [];
  }

  lemma RowAdds(xs: seq<nat>, ys: seq<nat>, ix: nat)
    requires ix < |xs|
    ensures Value(xs[..ix + 1]) * Value(ys) == Value(xs[..ix]) * Value(ys) + (xs[ix] * Power(BASE, ix)) * Value(ys)
  {
    ValuePrefix(xs, ix);
    Distribute(Value(xs[..ix]), xs[ix] * Power(BASE, ix), Value(ys));
  }

  method MulRow(a: Mp, b: Mp, t: Mp, ix: nat)
    requires a.Valid() && b.Valid() && t.used == t.dp.Length == a.used + b.used + 1 && ix < a.used && Digits(t.dp[..])
    requires t != a && t != b && t.dp != a.dp && t.dp != b.dp
    requires forall k :: ix + b.used <= k < t.used ==> t.dp[k] == 0
    modifies t.dp
    ensures Digits(t.dp[..])
    ensures Value(t.dp[..ix + b.used + 1]) == Value(old(t.dp[..ix + b.used])) + (a.dp[ix] * Power(BASE, ix)) * b.Num()
    ensures forall k :: ix + b.used + 1 <= k < t.used ==> t.dp[k] == 0
  {
    hide RowDone, Value, Power, Column;
    var u: nat := 0;
    ghost var t0, ys, d := t.dp[..], b.dp[..b.used], a.dp[ix];
    RowStart(t0, ys, ix, d);
    assert t.dp[..ix + 0] == t0[..ix];
    var iy := 0;
    while iy < b.used
      invariant 0 <= iy <= b.used && u < BASE && Digits(t.dp[..]) && b.dp[..b.used] == ys && a.dp[ix] == d
      invariant RowDone(t0, ys, t.dp[..ix + iy], ix, iy, d, u)
      invariant forall k :: ix + iy <= k < t.used ==> t.dp[k] == t0[k]
    {
      assert b.dp[iy] == ys[iy];
      var (digit, carry) := Column(t.dp[ix + iy], a.dp[ix], b.dp[iy], u);
      ghost var before := t.dp[..ix + iy];
      MulStep(t0, ys, before, ix, iy, d, u);
      t.dp[ix + iy] := digit;
      assert t.dp[..ix + iy] == before && t.dp[..ix + iy + 1] == before + [digit];
      u := carry;
      iy := iy + 1;
    }
    ghost var row := t.dp[..ix + iy];
    RowEnd(t0, ys, row, ix, d, u);
    t.dp[ix + iy] := u;
    assert t.dp[..ix + iy] == row && t.dp[..ix + iy + 1] == row + [u];
    assert t0[..ix + iy] == old(t.dp[..ix + b.used]);
  }

  /** The new digit and the carry of one column, computed in a word and cut to shorts. */
  function Column(t: nat, d: nat, e: nat, u: nat): (nat, nat) {
    var r := (t + d * e + u) % WORD;
    (r % BASE % SHORT, r / BASE % SHORT)
  }

  /** After iy columns of row ix: the low digits t and the carry u hold what was there
      plus the row so far. */
  ghost predicate RowDone(t0: seq<nat>, ys: seq<nat>, t: seq<nat>, ix: nat, iy: nat, d: nat, u: nat) {
    && iy <= |ys| && |t| == ix + iy <= |t0|
    && Value(t) + u * Power(BASE, ix + iy) == Value(t0[..ix + iy]) + (d * Power(BASE, ix)) * Value(ys[..iy])
  }

  lemma RowStart(t0: seq<nat>, ys: seq<nat>, ix: nat, d: nat)
    requires ix <= |t0|
    ensures RowDone(t0, ys, t0[..ix], ix, 0, d, 0)
  {
    assert ys[..0] == [];
  }

  lemma RowEnd(t0: seq<nat>, ys: seq<nat>, t: seq<nat>, ix: nat, d: nat, u: nat)
    requires RowDone(t0, ys, t, ix, |ys|, d, u)
    ensures Value(t + [u]) == Value(t0[..ix + |ys|]) + (d * Power(BASE, ix)) * Value(ys)
  {
    hide Value, Power;
    assert ys[..|ys|] == ys;
    ValueSnoc(t, u);
  }

  /** One column: the product fits a word, its carry a digit. */
  lemma MulStep(t0: seq<nat>, ys: seq<nat>, t: seq<nat>, ix: nat, iy: nat, d: nat, u: nat)
    requires Digits(t0) && Digits(ys) && ix + iy < |t0| && iy < |ys| && d < BASE && u < BASE
    requires RowDone(t0, ys, t, ix, iy, d, u)
    ensures var (digit, carry) := Column(t0[ix + iy], d, ys[iy], u);
            digit < BASE && carry < BASE && RowDone(t0, ys, t + [digit], ix, iy + 1, d, carry)
  {
    hide Value, Power, Column;
    var k, e := ix + iy, ys[iy];
    ColumnExact(t0[k], d, e, u);
    var digit := Column(t0[k], d, e, u).0;
    ValueSnoc(t, digit);
    ValuePrefix(t0, k);
    ValuePrefix(ys, iy);
    PowerSum(ix, iy);
    PowerNext(k);
    ColumnAlgebra(Value(t), Value(t0[..k]), Value(ys[..iy]), t0[k], d, e, u, Power(BASE, ix), Power(BASE, iy));
  }

  /** A column fits a word and its carry is a digit, so nothing is cut off. */
  lemma ColumnExact(t: nat, d: nat, e: nat, u: nat)
    requires t < BASE && d < BASE && e < BASE && u < BASE
    ensures var r := t + d * e + u;
            r < WORD && Column(t, d, e, u) == (r % BASE, r / BASE) && r / BASE < BASE
  {
    Product(d, e, BASE - 1);
    Small(t + d * e + u);
  }

  lemma Small(r: nat)
    requires r < BASE * BASE
    ensures r < WORD && r % WORD == r && r % BASE % SHORT == r % BASE && r / BASE < BASE && r / BASE % SHORT == r / BASE
  {
  }

  lemma ColumnAlgebra(v: nat, v0: nat, y: nat, t: nat, d: nat, e: nat, u: nat, q: nat, p: nat)
    requires v + u * (q * p) == v0 + (d * q) * y
    ensures var r := t + d * e + u;
            v + (r % BASE) * (q * p) + (r / BASE) * (BASE * (q * p)) == v0 + t * (q * p) + (d * q) * (y + e * p)
  {
    var r, w := t + d * e + u, q * p;
    Carry(v, w, r);
    Distribute(t + d * e, u, w);
    Distribute(t, d * e, w);
    Rearrange(d, q, e, p, y);
  }

  lemma Product(x: nat, y: nat, m: nat)
    requires x <= m && y <= m
    ensures x * y <= m * m
  {
  }

  lemma {:induction false} PowerSum(i: nat, j: nat)
    ensures Power(BASE, i + j) == Power(BASE, i) * Power(BASE, j)
    decreases i
  {
    if i > 0 {
      PowerSum(i - 1, j);
      Assoc(BASE, Power(BASE, i - 1), Power(BASE, j));
    }
  }

  lemma Assoc(x: nat, y: nat, z: nat)
    ensures x * (y * z) == (x * y) * z
  {
  }

  lemma Rearrange(d: nat, q: nat, e: nat, p: nat, v: nat)
    ensures (d * q) * (v + e * p) == (d * q) * v + (d * e) * (q * p)
  {
    assert (d * q) * (v + e * p) == (d * q) * v + (d * q) * (e * p);
    assert (d * q) * (e * p) == (d * e) * (q * p);
  }

  function Sign(x: int): int {
    if x > 0 then 1 else if x < 0 then -1 else 0
  }

  /** mp_cmp: by length, then digit by digit from the top. */
  method Cmp(a: Mp, b: Mp) returns (r: int)
    requires a.Valid() && b.Valid()
    ensures r == Sign(a.Num() - b.Num())
  {
    ghost var xs, ys := a.dp[..a.used], b.dp[..b.used];
    if a.used != b.used {
      if a.used > b.used {
        LongerIsGreater(xs, ys);
        return 1;
      }
      LongerIsGreater(ys, xs);
      return -1;
    }
    var n := a.used;
    assert xs[..n] == xs && ys[..n] == ys;
    while n > 0
      invariant 0 <= n <= a.used && Value(xs) - Value(ys) == Value(xs[..n]) - Value(ys[..n])
    {
      n := n - 1;
      ValuePrefix(xs, n);
      ValuePrefix(ys, n);
      if a.dp[n] != b.dp[n] {
        if a.dp[n] > b.dp[n] {
          TopDecides(xs, ys, n);
          return 1;
        }
        TopDecides(ys, xs, n);
        return -1;
      }
    }
    r := 0;
  }

  lemma LongerIsGreater(xs: seq<nat>, ys: seq<nat>)
    requires Digits(xs) && Digits(ys) && |xs| > |ys| && xs[|xs| - 1] != 0
    ensures Value(xs) > Value(ys)
  {
    var n := |xs| - 1;
    ValueBound(ys);
    ValuePrefix(xs, n);
    assert xs[..n + 1] == xs;
    PowerMonotone(|ys|, n);
    AtLeast(xs[n], Power(BASE, n));
  }

  lemma {:induction false} PowerMonotone(i: nat, j: nat)
    requires i <= j
    ensures Power(BASE, i) <= Power(BASE, j)
    decreases j
  {
    if i < j {
      PowerMonotone(i, j - 1);
    }
  }

  lemma TopDecides(xs: seq<nat>, ys: seq<nat>, n: nat)
    requires Digits(xs) && Digits(ys) && n < |xs| && n < |ys| && xs[n] > ys[n]
    ensures Value(xs[..n + 1]) > Value(ys[..n + 1])
  {
    ValuePrefix(xs, n);
    ValuePrefix(ys, n);
    ValueBound(ys[..n]);
    var p := Power(BASE, n);
    Distribute(xs[n] - ys[n], ys[n], p);
    AtLeast(xs[n] - ys[n], p);
  }
}
