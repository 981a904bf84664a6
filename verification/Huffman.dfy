/** Combining the two lightest of a list of trees until one is left (the loop of BalanceTree,
    opt/treeheight.c): no other tree over the same leaves has a smaller weighted path length,
    and over leaves of one weight no other tree is lower. */
module Huffman {
  import opened Words
  import opened TreeHeight

  // ---------- trees ----------

  /** The order in which values are combined; the leaves are variables. */
  datatype Shape = Leaf(v: nat) | Join(left: Shape, right: Shape)

  ghost function Leaves(t: Shape): (s: seq<nat>)
    ensures |s| > 0
  {
    match t
    case Leaf(v) => [v]
    case Join(l, r) => Leaves(l) + Leaves(r)
  }

  ghost function Height(t: Shape): nat {
    match t
    case Leaf(_) => 0
    case Join(l, r) => 1 + if Height(l) >= Height(r) then Height(l) else Height(r)
  }

  ghost function WeightAt(w: seq<nat>, v: nat): nat {
    if v < |w| then w[v] else 0
  }

  ghost function Sum(s: seq<nat>): nat {
    if s == [] then 0 else s[0] + Sum(s[1..])
  }

  ghost function Weights(w: seq<nat>, s: seq<nat>): (r: seq<nat>)
    ensures |r| == |s|
  {
    seq(|s|, i requires 0 <= i < |s| => WeightAt(w, s[i]))
  }

  ghost function Total(w: seq<nat>, t: Shape): nat {
    match t
    case Leaf(v) => WeightAt(w, v)
    case Join(l, r) => Total(w, l) + Total(w, r)
  }

  /** The weighted path length: every leaf counts its weight once for each level above it. */
  ghost function Cost(w: seq<nat>, t: Shape): nat {
    match t
    case Leaf(_) => 0
    case Join(l, r) => Cost(w, l) + Cost(w, r) + Total(w, l) + Total(w, r)
  }

  // ---------- the loop as a recursion ----------

  ghost function Totals(w: seq<nat>, ts: seq<Shape>): (r: seq<nat>)
    ensures |r| == |ts|
  {
    seq(|ts|, i requires 0 <= i < |ts| => Total(w, ts[i]))
  }

  /** The first of the least. */
  ghost predicate FirstLeast(s: seq<nat>, i: nat) {
    && i < |s|
    && (forall k :: 0 <= k < |s| ==> s[i] <= s[k])
    && (forall k :: 0 <= k < i ==> s[i] < s[k])
  }

  ghost function Least(s: seq<nat>): (i: nat)
    requires s != []
    ensures FirstLeast(s, i)
  {
    if |s| == 1 then 0
    else
      var n := |s| - 1;
      var i := Least(s[..n]);
      assert forall k :: 0 <= k < n ==> s[..n][k] == s[k];
      if s[n] < s[i] then n else i
  }

  lemma LeastIs(s: seq<nat>, i: nat)
    requires FirstLeast(s, i)
    ensures Least(s) == i
  {
    hide Least;
    var j := Least(s);
    assert s[i] == s[j];
  }

  /** One round: the two lightest leave the list and their combination joins it at the end. */
  ghost function Round(w: seq<nat>, ts: seq<Shape>): (r: seq<Shape>)
    requires |ts| >= 2
    ensures |r| == |ts| - 1
  {
    var i := Least(Totals(w, ts));
    var rest := Remove<Shape>(ts, i);
    var j := Least(Totals(w, rest));
    Remove<Shape>(rest, j) + [Join(ts[i], rest[j])]
  }

  ghost function Reduce(w: seq<nat>, ts: seq<Shape>): Shape
    requires ts != []
    decreases |ts|
  {
    if |ts| == 1 then ts[0] else Reduce(w, Round(w, ts))
  }

  ghost function LeavesOf(s: seq<nat>): (r: seq<Shape>)
    ensures |r| == |s|
  {
    seq(|s|, i requires 0 <= i < |s| => Leaf(s[i]))
  }

  // ---------- weighted path length ----------

  ghost function Up(s: seq<nat>): (r: seq<nat>)
    ensures |r| == |s|
  {
    seq(|s|, i requires 0 <= i < |s| => s[i] + 1)
  }

  /** The level of each leaf. */
  ghost function Depths(t: Shape): (s: seq<nat>)
    ensures |s| == |Leaves(t)|
  {
    match t
    case Leaf(_) => [0]
    case Join(l, r) => Up(Depths(l)) + Up(Depths(r))
  }

  ghost function Dot(d: seq<nat>, s: seq<nat>): nat
    requires |d| == |s|
  {
    if d == [] then 0 else d[0] * s[0] + Dot(d[1..], s[1..])
  }

  lemma {:induction false} SumConcat(s: seq<nat>, t: seq<nat>)
    ensures Sum(s + t) == Sum(s) + Sum(t)
  {
    if s == [] {
      assert s + t == t;
    } else {
      assert (s + t)[1..] == s[1..] + t;
      SumConcat(s[1..], t);
    }
  }

  lemma {:induction false} DotConcat(d: seq<nat>, e: seq<nat>, s: seq<nat>, t: seq<nat>)
    requires |d| == |s| && |e| == |t|
    ensures Dot(d + e, s + t) == Dot(d, s) + Dot(e, t)
  {
    if d == [] {
      assert d + e == e && s + t == t;
    } else {
      assert (d + e)[1..] == d[1..] + e && (s + t)[1..] == s[1..] + t;
      DotConcat(d[1..], e, s[1..], t);
    }
  }

  lemma {:induction false} DotUp(d: seq<nat>, s: seq<nat>)
    requires |d| == |s|
    ensures Dot(Up(d), s) == Dot(d, s) + Sum(s)
  {
    if d != [] {
      assert Up(d)[1..] == Up(d[1..]);
      DotUp(d[1..], s[1..]);
      assert (d[0] + 1) * s[0] == d[0] * s[0] + s[0];
    }
  }

  lemma {:induction false} TotalIsSum(w: seq<nat>, t: Shape)
    ensures Total(w, t) == Sum(Weights(w, Leaves(t)))
  {
    match t
    case Leaf(v) =>
      assert Weights(w, [v])[1..] == [];
    case Join(l, r) =>
      TotalIsSum(w, l);
      TotalIsSum(w, r);
      assert Weights(w, Leaves(t)) == Weights(w, Leaves(l)) + Weights(w, Leaves(r));
      SumConcat(Weights(w, Leaves(l)), Weights(w, Leaves(r)));
  }

  lemma {:induction false} CostIsDot(w: seq<nat>, t: Shape)
    ensures Cost(w, t) == Dot(Depths(t), Weights(w, Leaves(t)))
  {
    match t
    case Leaf(v) =>
      assert Dot([0], [WeightAt(w, v)]) == 0 * WeightAt(w, v) + Dot([0][1..], [WeightAt(w, v)][1..]);
      assert Weights(w, Leaves(t)) == [WeightAt(w, v)];
    case Join(l, r) =>
      var a, b := Weights(w, Leaves(l)), Weights(w, Leaves(r));
      CostIsDot(w, l);
      CostIsDot(w, r);
      TotalIsSum(w, l);
      TotalIsSum(w, r);
      assert Weights(w, Leaves(t)) == a + b;
      DotConcat(Up(Depths(l)), Up(Depths(r)), a, b);
      DotUp(Depths(l), a);
      DotUp(Depths(r), b);
  }

  // ---------- the deepest pair ----------

  /** Two neighbouring leaves of the greatest depth, and the tree in which they are one leaf. */
  ghost predicate DeepPair(d: seq<nat>, k: nat, e: seq<nat>) {
    && k + 1 < |d| && d[k] > 0 && d[k] == d[k + 1] && (forall i :: 0 <= i < |d| ==> d[i] <= d[k])
    && e == d[..k] + [(d[k] - 1) as nat] + d[k + 2..]
  }

  lemma PairLeft(d: seq<nat>, k: nat, e: seq<nat>, other: seq<nat>)
    requires DeepPair(d, k, e) && forall i :: 0 <= i < |other| ==> other[i] <= d[k]
    ensures DeepPair(Up(d) + Up(other), k, Up(e) + Up(other)) && (Up(d) + Up(other))[k] == d[k] + 1
  {
    var all := Up(d) + Up(other);
    assert all[..k] == Up(d[..k]);
    assert all[k + 2..] == Up(d[k + 2..]) + Up(other);
    assert Up(e) == Up(d[..k]) + [d[k]] + Up(d[k + 2..]);
    assert forall i :: 0 <= i < |all| ==> all[i] <= all[k];
  }

  lemma PairRight(d: seq<nat>, k: nat, e: seq<nat>, other: seq<nat>)
    requires DeepPair(d, k, e) && forall i :: 0 <= i < |other| ==> other[i] <= d[k]
    ensures DeepPair(Up(other) + Up(d), |other| + k, Up(other) + Up(e))
    ensures (Up(other) + Up(d))[|other| + k] == d[k] + 1
  {
    var all := Up(other) + Up(d);
    assert all[..|other| + k] == Up(other) + Up(d[..k]);
    assert all[|other| + k + 2..] == Up(d[k + 2..]);
    assert Up(e) == Up(d[..k]) + [d[k]] + Up(d[k + 2..]);
    assert forall i :: 0 <= i < |all| ==> all[i] <= all[|other| + k];
  }

  ghost predicate Bounded(d: seq<nat>, h: nat) {
    forall i :: 0 <= i < |d| ==> d[i] <= h
  }

  lemma {:induction false} DepthsBounded(t: Shape)
    ensures Bounded(Depths(t), Height(t))
  {
    if t.Join? {
      DepthsBounded(t.left);
      DepthsBounded(t.right);
    }
  }

  lemma {:induction false} DeepestPair(t: Shape) returns (k: nat, u: Shape)
    requires t.Join?
    ensures DeepPair(Depths(t), k, Depths(u)) && Depths(t)[k] == Height(t)
    decreases t
  {
    hide DeepPair, Up, Leaves;
    var l, r := t.left, t.right;
    DepthsBounded(l);
    DepthsBounded(r);
    if l.Leaf? && r.Leaf? {
      k, u := 0, Leaf(0);
      TwoLeaves();
    } else if Height(l) >= Height(r) {
      var u1;
      k, u1 := DeepestPair(l);
      u := Join(u1, r);
      PairFacts(Depths(l), k, Depths(u1));
      PairLeft(Depths(l), k, Depths(u1), Depths(r));
    } else {
      var k1, u1 := DeepestPair(r);
      k, u := |Depths(l)| + k1, Join(l, u1);
      PairFacts(Depths(r), k1, Depths(u1));
      PairRight(Depths(r), k1, Depths(u1), Depths(l));
    }
  }

  lemma TwoLeaves()
    ensures DeepPair(Up([0]) + Up([0]), 0, [0]) && (Up([0]) + Up([0]))[0] == 1
  {
    var d := Up([0]) + Up([0]);
    assert d == [1, 1] && d[..0] == [] && d[2..] == [];
  }

  lemma PairFacts(d: seq<nat>, k: nat, e: seq<nat>)
    requires DeepPair(d, k, e)
    ensures k + 1 < |d|
  {
  }

  // ---------- the exchange ----------

  lemma {:induction false} DotUpdate(d: seq<nat>, s: seq<nat>, i: nat, x: nat)
    requires |d| == |s| && i < |s|
    ensures Dot(d, s[i := x]) + d[i] * s[i] == Dot(d, s) + d[i] * x
  {
    if i == 0 {
      assert s[i := x][1..] == s[1..];
    } else {
      assert s[i := x][1..] == s[1..][i - 1 := x];
      DotUpdate(d[1..], s[1..], i - 1, x);
    }
  }

  /** Moving the lighter of two weights down costs nothing. */
  lemma SwapDown(d: seq<nat>, s: seq<nat>, i: nat, k: nat) returns (t: seq<nat>)
    requires |d| == |s| && i < |s| && k < |s| && d[i] <= d[k] && s[i] <= s[k]
    ensures t == s[i := s[k]][k := s[i]] && Dot(d, t) <= Dot(d, s) && multiset(t) == multiset(s)
  {
    hide Dot;
    var s1 := s[i := s[k]];
    t := s1[k := s[i]];
    SwapMultiset(s, i, k);
    DotUpdate(d, s, i, s[k]);
    DotUpdate(d, s1, k, s[i]);
    if i != k {
      assert d[i] * s[k] + d[k] * s[i] <= d[i] * s[i] + d[k] * s[k] by {
        CrossTerms(d[i], d[k], s[i], s[k]);
      }
    }
  }

  lemma SwapMultiset(s: seq<nat>, i: nat, k: nat)
    requires i < |s| && k < |s|
    ensures multiset(s[i := s[k]][k := s[i]]) == multiset(s)
  {
  }

  lemma CrossTerms(p: nat, q: nat, x: nat, y: nat)
    requires p <= q && x <= y
    ensures p * y + q * x <= p * x + q * y
  {
    assert (q - p) * (y - x) >= 0;
    assert (q - p) * (y - x) == q * y - q * x - p * y + p * x;
  }

  lemma IsIn(s: seq<nat>, x: nat) returns (i: nat)
    requires x in multiset(s)
    ensures i < |s| && s[i] == x
  {
    i :| 0 <= i < |s| && s[i] == x;
  }

  lemma OthersIn(s: seq<nat>, k: nat, m: multiset<nat>, b: nat)
    requires k < |s| && multiset(s) == m + multiset{s[k], b}
    ensures multiset(Remove<nat>(s, k)) == m + multiset{b}
  {
    RemoveMultiset<nat>(s, k);
    hide Remove;
    var rest := Remove<nat>(s, k);
    Without(multiset(rest), multiset{s[k]});
    Without(m + multiset{b}, multiset{s[k]});
    assert m + multiset{s[k], b} == m + multiset{b} + multiset{s[k]};
  }

  lemma ElsewhereIn(s: seq<nat>, k: nat, m: multiset<nat>, b: nat) returns (j: nat)
    requires k < |s| && multiset(s) == m + multiset{s[k], b}
    ensures j < |s| && j != k && s[j] == b
    ensures forall i :: 0 <= i < |s| && i != k ==> s[i] in m || s[i] == b
  {
    OthersIn(s, k, m, b);
    var rest := Remove<nat>(s, k);
    var j0 := IsIn(rest, b);
    j := if j0 < k then j0 else j0 + 1;
    forall i | 0 <= i < |s| && i != k ensures s[i] in m || s[i] == b {
      assert rest[if i < k then i else i - 1] == s[i];
      assert s[i] in multiset(rest);
    }
  }

  /** The two least weights stand next to each other at the deepest pair. */
  lemma LeastDown(d: seq<nat>, s: seq<nat>, k: nat, a: nat, b: nat, m: multiset<nat>) returns (t: seq<nat>)
    requires |d| == |s| && k + 1 < |d| && d[k] == d[k + 1] && Bounded(d, d[k])
    requires multiset(s) == m + multiset{a, b} && a <= b && forall x :: x in m ==> b <= x
    ensures |t| == |s| && t[k] == a && t[k + 1] == b && Dot(d, t) <= Dot(d, s) && multiset(t) == multiset(s)
  {
    hide Dot;
    assert multiset(s)[a] > 0;
    var i := IsIn(s, a);
    assert s[k] in multiset(s);
    var s1 := SwapDown(d, s, i, k);
    assert s1[k] == a;
    var j := ElsewhereIn(s1, k, m, b);
    t := SwapDown(d, s1, j, k + 1);
  }

  lemma RemoveMultiset<T>(s: seq<T>, i: nat)
    requires i < |s|
    ensures multiset(s) == multiset(Remove<T>(s, i)) + multiset{s[i]}
  {
    assert s == s[..i] + [s[i]] + s[i + 1..];
  }

  lemma DotContract(d: seq<nat>, s: seq<nat>, k: nat, e: seq<nat>)
    requires |d| == |s| && DeepPair(d, k, e)
    ensures var t := s[..k] + [s[k] + s[k + 1]] + s[k + 2..];
            |t| == |e| && Dot(d, s) == Dot(e, t) + s[k] + s[k + 1]
  {
    var t := s[..k] + [s[k] + s[k + 1]] + s[k + 2..];
    assert d == d[..k] + [d[k], d[k]] + d[k + 2..];
    assert s == s[..k] + [s[k], s[k + 1]] + s[k + 2..];
    DotConcat(d[..k] + [d[k], d[k]], d[k + 2..], s[..k] + [s[k], s[k + 1]], s[k + 2..]);
    DotConcat(d[..k], [d[k], d[k]], s[..k], [s[k], s[k + 1]]);
    var c: nat := d[k] - 1;
    DotConcat(d[..k] + [c], d[k + 2..], s[..k] + [s[k] + s[k + 1]], s[k + 2..]);
    DotConcat(d[..k], [c], s[..k], [s[k] + s[k + 1]]);
    DotPair(d[k], s[k], s[k + 1]);
  }

  lemma DotPair(d: nat, x: nat, y: nat)
    requires d > 0
    ensures Dot([d, d], [x, y]) == Dot([d - 1], [x + y]) + x + y
  {
    assert Dot([d, d], [x, y]) == d * x + Dot([d], [y]) by { assert [d, d][1..] == [d] && [x, y][1..] == [y]; }
    assert Dot([d], [y]) == d * y;
    assert Dot([d - 1], [x + y]) == (d - 1) * (x + y);
    assert (d - 1) * (x + y) == d * x + d * y - x - y;
  }

  // ---------- optimality ----------

  /** The weights after a round, and what the round costs. */
  ghost function NextWeights(s: seq<nat>): (r: seq<nat>)
    requires |s| >= 2
    ensures |r| == |s| - 1
  {
    var i := Least(s);
    var rest := Remove<nat>(s, i);
    var j := Least(rest);
    Remove<nat>(rest, j) + [s[i] + rest[j]]
  }

  ghost function Paid(s: seq<nat>): nat
    requires |s| >= 2
  {
    var i := Least(s);
    var rest := Remove<nat>(s, i);
    s[i] + rest[Least(rest)]
  }

  /** The least weighted path length of a tree over leaves of these weights. */
  ghost function Merges(s: seq<nat>): nat
    requires s != []
    decreases |s|
  {
    if |s| == 1 then 0 else Paid(s) + Merges(NextWeights(s))
  }

  /** With the two least weights as one leaf the tree is smaller by their sum. */
  lemma Contracted(d: seq<nat>, u: seq<nat>, k: nat, e: seq<nat>, a: nat, b: nat, m: multiset<nat>)
    returns (v: seq<nat>)
    requires |d| == |u| && DeepPair(d, k, e)
    requires multiset(u) == m + multiset{a, b} && a <= b && forall x :: x in m ==> b <= x
    ensures |v| == |e| && multiset(v) == m + multiset{a + b} && Dot(e, v) + a + b <= Dot(d, u)
  {
    hide Dot, DeepPair;
    DeepFacts(d, k, e);
    var t := LeastDown(d, u, k, a, b, m);
    DotContract(d, t, k, e);
    v := t[..k] + [a + b] + t[k + 2..];
    OnePair(t, k, m);
  }

  lemma OnePair(s: seq<nat>, k: nat, m: multiset<nat>)
    requires k + 1 < |s| && multiset(s) == m + multiset{s[k], s[k + 1]}
    ensures multiset(s[..k] + [s[k] + s[k + 1]] + s[k + 2..]) == m + multiset{s[k] + s[k + 1]}
  {
    PairMultiset(s, k);
    Without(m, multiset{s[k], s[k + 1]});
  }

  lemma DeepFacts(d: seq<nat>, k: nat, e: seq<nat>)
    requires DeepPair(d, k, e)
    ensures k + 1 < |d| && d[k] == d[k + 1] && Bounded(d, d[k]) && |e| == |d| - 1
  {
  }

  lemma Without(m: multiset<nat>, n: multiset<nat>)
    ensures m + n - n == m
  {
  }

  lemma PairMultiset(s: seq<nat>, k: nat)
    requires k + 1 < |s|
    ensures var one := s[..k] + [s[k] + s[k + 1]] + s[k + 2..];
            multiset(one) == multiset(s) - multiset{s[k], s[k + 1]} + multiset{s[k] + s[k + 1]}
  {
    assert s == s[..k] + [s[k], s[k + 1]] + s[k + 2..];
  }

  lemma MoreThanOne(t: Shape)
    requires |Depths(t)| > 1
    ensures t.Join?
  {
  }

  /** No tree over these weights has a smaller weighted path length. */
  lemma {:induction false} MergesIsLeast(s: seq<nat>, t: Shape, u: seq<nat>)
    requires s != [] && |u| == |Depths(t)| && multiset(u) == multiset(s)
    ensures Merges(s) <= Dot(Depths(t), u)
    decreases |s|
  {
    hide DeepPair, Paid, NextWeights, Dot, Depths;
    if |s| > 1 {
      SameSize(s, u);
      MoreThanOne(t);
      var a, b, rest := FirstTwo(s);
      var k, t2 := DeepestPair(t);
      var v := Contracted(Depths(t), u, k, Depths(t2), a, b, multiset(rest));
      assert multiset(rest + [a + b]) == multiset(rest) + multiset{a + b};
      MergesIsLeast(rest + [a + b], t2, v);
    }
  }

  /** The two that are combined first. */
  lemma FirstTwo(s: seq<nat>) returns (a: nat, b: nat, rest: seq<nat>)
    requires |s| > 1
    ensures |rest| == |s| - 2 && multiset(s) == multiset(rest) + multiset{a, b} && a <= b
    ensures forall x :: x in multiset(rest) ==> b <= x
    ensures Paid(s) == a + b && NextWeights(s) == rest + [a + b]
  {
    hide Least, FirstLeast, Remove;
    var i := Least(s);
    FirstIn(s, i);
    var rest1 := Remove<nat>(s, i);
    var j := Least(rest1);
    FirstIn(rest1, j);
    a, b, rest := s[i], rest1[j], Remove<nat>(rest1, j);
    RemoveMultiset<nat>(s, i);
    RemoveMultiset<nat>(rest1, j);
    assert multiset{b} + multiset{a} == multiset{a, b};
    TwoLeast(s, i, j);
  }

  lemma FirstIn(s: seq<nat>, i: nat)
    requires FirstLeast(s, i)
    ensures i < |s|
  {
  }

  lemma SameSize(s: seq<nat>, u: seq<nat>)
    requires multiset(u) == multiset(s)
    ensures |u| == |s|
  {
    assert |multiset(u)| == |u| && |multiset(s)| == |s|;
  }

  lemma TwoLeast(s: seq<nat>, i: nat, j: nat)
    requires |s| >= 2 && FirstLeast(s, i) && FirstLeast(Remove<nat>(s, i), j)
    ensures s[i] <= Remove<nat>(s, i)[j]
    ensures forall x :: x in multiset(Remove<nat>(Remove<nat>(s, i), j)) ==> Remove<nat>(s, i)[j] <= x
  {
    var rest := Remove<nat>(s, i);
    assert forall k :: 0 <= k < |rest| ==> rest[k] == s[if k < i then k else k + 1];
    var rest2 := Remove<nat>(rest, j);
    forall x | x in multiset(rest2) ensures rest[j] <= x {
      var k :| 0 <= k < |rest2| && rest2[k] == x;
      assert rest2[k] == rest[if k < j then k else k + 1];
    }
  }

  ghost function Costs(w: seq<nat>, ts: seq<Shape>): nat {
    if ts == [] then 0 else Cost(w, ts[0]) + Costs(w, ts[1..])
  }

  lemma {:induction false} CostsConcat(w: seq<nat>, ts: seq<Shape>, us: seq<Shape>)
    ensures Costs(w, ts + us) == Costs(w, ts) + Costs(w, us)
  {
    if ts == [] {
      assert ts + us == us;
    } else {
      assert (ts + us)[1..] == ts[1..] + us;
      CostsConcat(w, ts[1..], us);
    }
  }

  lemma CostsRemove(w: seq<nat>, ts: seq<Shape>, i: nat)
    requires i < |ts|
    ensures Costs(w, ts) == Costs(w, Remove<Shape>(ts, i)) + Cost(w, ts[i])
  {
    assert ts == ts[..i] + ([ts[i]] + ts[i + 1..]);
    CostsConcat(w, ts[..i], [ts[i]] + ts[i + 1..]);
    CostsConcat(w, [ts[i]], ts[i + 1..]);
    CostsConcat(w, ts[..i], ts[i + 1..]);
    assert Costs(w, [ts[i]]) == Cost(w, ts[i]) by { assert [ts[i]][1..] == []; }
  }

  lemma TotalsRemove(w: seq<nat>, ts: seq<Shape>, i: nat)
    requires i < |ts|
    ensures Totals(w, Remove<Shape>(ts, i)) == Remove<nat>(Totals(w, ts), i)
  {
  }

  lemma TotalsAdd(w: seq<nat>, ts: seq<Shape>, t: Shape)
    ensures Totals(w, ts + [t]) == Totals(w, ts) + [Total(w, t)]
  {
  }

  lemma RoundTotals(w: seq<nat>, ts: seq<Shape>)
    requires |ts| >= 2
    ensures Totals(w, Round(w, ts)) == NextWeights(Totals(w, ts))
  {
    hide Least, Totals, FirstLeast;
    var s := Totals(w, ts);
    var i := Least(s);
    FirstIn(s, i);
    var rest := Remove<Shape>(ts, i);
    TotalsRemove(w, ts, i);
    var j := Least(Totals(w, rest));
    FirstIn(Totals(w, rest), j);
    TotalsRemove(w, rest, j);
    TotalsAt(w, ts, i);
    TotalsAt(w, rest, j);
    TotalsAdd(w, Remove<Shape>(rest, j), Join(ts[i], rest[j]));
  }

  lemma TotalsAt(w: seq<nat>, ts: seq<Shape>, i: nat)
    requires i < |ts|
    ensures Totals(w, ts)[i] == Total(w, ts[i])
  {
  }

  lemma RoundCosts(w: seq<nat>, ts: seq<Shape>)
    requires |ts| >= 2
    ensures Costs(w, Round(w, ts)) == Costs(w, ts) + Paid(Totals(w, ts))
  {
    hide Least, Totals, FirstLeast, Costs;
    var s := Totals(w, ts);
    var i := Least(s);
    FirstIn(s, i);
    var rest := Remove<Shape>(ts, i);
    TotalsRemove(w, ts, i);
    var j := Least(Totals(w, rest));
    FirstIn(Totals(w, rest), j);
    TotalsAt(w, ts, i);
    TotalsAt(w, rest, j);
    var both := Join(ts[i], rest[j]);
    CostsRemove(w, ts, i);
    CostsRemove(w, rest, j);
    CostsConcat(w, Remove<Shape>(rest, j), [both]);
    OneCost(w, both);
  }

  lemma OneCost(w: seq<nat>, t: Shape)
    ensures Costs(w, [t]) == Cost(w, t)
  {
    assert [t][1..] == [];
  }

  /** What the loop builds costs what its trees cost and the least that combining them can. */
  lemma {:induction false} ReduceCost(w: seq<nat>, ts: seq<Shape>)
    requires ts != []
    ensures Cost(w, Reduce(w, ts)) == Costs(w, ts) + Merges(Totals(w, ts))
    decreases |ts|
  {
    hide Least, Round, Totals, Costs, FirstLeast, Paid, NextWeights;
    if |ts| == 1 {
      OneCost(w, ts[0]);
      assert ts == [ts[0]];
    } else {
      RoundTotals(w, ts);
      RoundCosts(w, ts);
      ReduceCost(w, Round(w, ts));
    }
  }

  lemma {:induction false} ReduceTotal(w: seq<nat>, ts: seq<Shape>)
    requires ts != []
    ensures Total(w, Reduce(w, ts)) == Sum(Totals(w, ts))
    decreases |ts|
  {
    hide Least, Round, Totals, FirstLeast, NextWeights;
    if |ts| == 1 {
      TotalsAt(w, ts, 0);
      assert Totals(w, ts)[1..] == [];
    } else {
      RoundTotals(w, ts);
      NextSum(Totals(w, ts));
      ReduceTotal(w, Round(w, ts));
    }
  }

  lemma NextSum(s: seq<nat>)
    requires |s| >= 2
    ensures Sum(NextWeights(s)) == Sum(s)
  {
    hide Sum, Least, NextWeights, Remove, Paid;
    var i, j := NextIs(s);
    var rest := Remove<nat>(s, i);
    SumRemove(s, i);
    SumRemove(rest, j);
    SumConcat(Remove<nat>(rest, j), [s[i] + rest[j]]);
    SumOne(s[i] + rest[j]);
  }

  lemma NextIs(s: seq<nat>) returns (i: nat, j: nat)
    requires |s| >= 2
    ensures i < |s| && j < |s| - 1
    ensures NextWeights(s) == Remove<nat>(Remove<nat>(s, i), j) + [s[i] + Remove<nat>(s, i)[j]]
  {
    i := Least(s);
    j := Least(Remove<nat>(s, i));
  }

  lemma SumOne(x: nat)
    ensures Sum([x]) == x
  {
    assert [x][1..] == [];
  }

  lemma SumRemove(s: seq<nat>, i: nat)
    requires i < |s|
    ensures Sum(s) == Sum(Remove<nat>(s, i)) + s[i]
  {
    hide Sum;
    var a, b := s[..i], s[i + 1..];
    assert s == a + ([s[i]] + b) && Remove<nat>(s, i) == a + b;
    SumConcat(a, [s[i]] + b);
    SumConcat([s[i]], b);
    SumConcat(a, b);
    SumOne(s[i]);
  }

  ghost function AllLeaves(ts: seq<Shape>): seq<nat> {
    if ts == [] then [] else Leaves(ts[0]) + AllLeaves(ts[1..])
  }

  lemma {:induction false} AllConcat(ts: seq<Shape>, us: seq<Shape>)
    ensures AllLeaves(ts + us) == AllLeaves(ts) + AllLeaves(us)
  {
    if ts == [] {
      assert ts + us == us;
    } else {
      assert (ts + us)[1..] == ts[1..] + us;
      AllConcat(ts[1..], us);
    }
  }

  lemma OneAll(t: Shape)
    ensures AllLeaves([t]) == Leaves(t)
  {
    assert [t][1..] == [];
  }

  lemma AllRemove(ts: seq<Shape>, i: nat)
    requires i < |ts|
    ensures multiset(AllLeaves(ts)) == multiset(AllLeaves(Remove<Shape>(ts, i))) + multiset(Leaves(ts[i]))
  {
    hide AllLeaves, Leaves;
    var a, b := ts[..i], ts[i + 1..];
    assert ts == a + ([ts[i]] + b);
    AllConcat(a, [ts[i]] + b);
    AllConcat([ts[i]], b);
    AllConcat(a, b);
    OneAll(ts[i]);
    ThreeParts(AllLeaves(a), Leaves(ts[i]), AllLeaves(b));
  }

  lemma ThreeParts(x: seq<nat>, y: seq<nat>, z: seq<nat>)
    ensures multiset(x + (y + z)) == multiset(x + z) + multiset(y)
  {
  }

  /** The leaves stay what they are. */
  lemma {:induction false} ReduceLeaves(w: seq<nat>, ts: seq<Shape>)
    requires ts != []
    ensures multiset(Leaves(Reduce(w, ts))) == multiset(AllLeaves(ts))
    decreases |ts|
  {
    hide Least;
    if |ts| == 1 {
      assert ts[1..] == [];
    } else {
      var i := Least(Totals(w, ts));
      var rest := Remove<Shape>(ts, i);
      var j := Least(Totals(w, rest));
      var both := Join(ts[i], rest[j]);
      AllRemove(ts, i);
      AllRemove(rest, j);
      AllConcat(Remove<Shape>(rest, j), [both]);
      assert AllLeaves([both]) == Leaves(both) by { assert [both][1..] == []; }
      ReduceLeaves(w, Remove<Shape>(rest, j) + [both]);
    }
  }

  lemma {:induction false} LeavesOfAll(s: seq<nat>)
    ensures AllLeaves(LeavesOf(s)) == s
  {
    if s != [] {
      assert LeavesOf(s)[1..] == LeavesOf(s[1..]);
      LeavesOfAll(s[1..]);
    }
  }

  lemma {:induction false} LeavesFree(w: seq<nat>, s: seq<nat>)
    ensures Costs(w, LeavesOf(s)) == 0
  {
    if s != [] {
      assert LeavesOf(s)[1..] == LeavesOf(s[1..]);
      LeavesFree(w, s[1..]);
    }
  }

  lemma {:induction false} WeightsMultiset(w: seq<nat>, s: seq<nat>, u: seq<nat>)
    requires multiset(s) == multiset(u)
    ensures multiset(Weights(w, s)) == multiset(Weights(w, u))
    decreases |s|
  {
    SameSize(s, u);
    if s != [] {
      assert s == [s[0]] + s[1..];
      assert multiset(s) == multiset{s[0]} + multiset(s[1..]);
      var i := IsIn(u, s[0]);
      RemoveMultiset<nat>(u, i);
      var rest := Remove<nat>(u, i);
      assert multiset(s[1..]) == multiset(s) - multiset{s[0]} == multiset(rest);
      WeightsMultiset(w, s[1..], rest);
      WeightsFirst(w, s);
      WeightsRemove(w, u, i);
    }
  }

  lemma WeightsFirst(w: seq<nat>, s: seq<nat>)
    requires s != []
    ensures multiset(Weights(w, s)) == multiset{WeightAt(w, s[0])} + multiset(Weights(w, s[1..]))
  {
    assert Weights(w, s) == [WeightAt(w, s[0])] + Weights(w, s[1..]);
  }

  lemma WeightsRemove(w: seq<nat>, u: seq<nat>, i: nat)
    requires i < |u|
    ensures multiset(Weights(w, u)) == multiset{WeightAt(w, u[i])} + multiset(Weights(w, Remove<nat>(u, i)))
  {
    assert Remove<nat>(Weights(w, u), i) == Weights(w, Remove<nat>(u, i));
    RemoveMultiset<nat>(Weights(w, u), i);
  }

  /** Combining the two lightest first: no tree over the same leaves has a smaller weighted
      path length. */
  lemma LightestFirstIsBest(w: seq<nat>, leaves: seq<nat>, other: Shape)
    requires leaves != [] && multiset(Leaves(other)) == multiset(leaves)
    ensures multiset(Leaves(Reduce(w, LeavesOf(leaves)))) == multiset(leaves)
    ensures Cost(w, Reduce(w, LeavesOf(leaves))) <= Cost(w, other)
  {
    ReduceLeaves(w, LeavesOf(leaves));
    LeavesOfAll(leaves);
    ReduceCost(w, LeavesOf(leaves));
    LeavesFree(w, leaves);
    CostIsDot(w, other);
    WeightsMultiset(w, Leaves(other), leaves);
    assert Totals(w, LeavesOf(leaves)) == Weights(w, leaves);
    MergesIsLeast(Weights(w, leaves), other, Weights(w, Leaves(other)));
  }

  // ---------- height ----------

  ghost function Size(t: Shape): (n: nat)
    ensures n > 0
  {
    |Leaves(t)|
  }

  lemma {:induction false} PowGrows(h: nat, k: nat)
    requires h <= k
    ensures Pow2(h) <= Pow2(k)
    decreases k
  {
    if h < k {
      PowGrows(h, k - 1);
    }
  }

  lemma {:induction false} SizeBelow(t: Shape)
    ensures Size(t) <= Pow2(Height(t))
  {
    if t.Join? {
      SizeBelow(t.left);
      SizeBelow(t.right);
      PowGrows(Height(t.left), Height(t) - 1);
      PowGrows(Height(t.right), Height(t) - 1);
    }
  }

  ghost predicate EvenAt(k: nat, t: Shape) {
    Pow2(k) <= Size(t) <= Pow2(k + 1) && Height(t) == if Size(t) == Pow2(k) then k else k + 1
  }

  ghost predicate Odd(k: nat, t: Shape) {
    Pow2(k) < Size(t) < Pow2(k + 1)
  }

  /** The trees of the list have 2^k or 2^(k+1) leaves, the smaller ones first, but for one
      that may lie between; and all are as low as they can be. */
  ghost predicate Level(k: nat, ts: seq<Shape>) {
    && (forall i :: 0 <= i < |ts| ==> EvenAt(k, ts[i]))
    && (forall i, j :: 0 <= i < j < |ts| ==> Size(ts[i]) <= Size(ts[j]))
    && (forall i, j :: 0 <= i < j < |ts| ==> !(Odd(k, ts[i]) && Odd(k, ts[j])))
  }

  lemma JoinEven(k: nat, a: Shape, b: Shape)
    requires EvenAt(k, a) && EvenAt(k, b) && Size(a) <= Size(b)
    ensures Size(b) == Pow2(k) ==> EvenAt(k, Join(a, b)) && Size(Join(a, b)) == Pow2(k + 1)
    ensures Size(b) > Pow2(k) ==> EvenAt(k + 1, Join(a, b)) && Size(Join(a, b)) > Pow2(k + 1)
  {
    assert Size(Join(a, b)) == Size(a) + Size(b);
    assert Pow2(k + 1) == 2 * Pow2(k) && Pow2(k + 2) == 2 * Pow2(k + 1);
  }

  lemma NextLevel(k: nat, ts: seq<Shape>) returns (m: nat)
    requires |ts| >= 2 && Level(k, ts)
    ensures Level(m, ts[2..] + [Join(ts[0], ts[1])])
  {
    hide Pow2, Size, Height;
    var a, b := ts[0], ts[1];
    var next := ts[2..] + [Join(a, b)];
    assert forall i :: 0 <= i < |next| - 1 ==> next[i] == ts[i + 2];
    JoinEven(k, a, b);
    if Size(b) == Pow2(k) {
      m := k;
    } else {
      m := k + 1;
      forall i | 0 <= i < |next| - 1 ensures Size(next[i]) == Pow2(k + 1) && EvenAt(k + 1, next[i]) {
        assert EvenAt(k, ts[i + 2]) && Size(b) <= Size(ts[i + 2]);
        assert !(Odd(k, ts[1]) && Odd(k, ts[i + 2]));
        LevelUp(k, ts[i + 2]);
      }
    }
  }

  lemma LevelUp(k: nat, t: Shape)
    requires EvenAt(k, t) && Size(t) == Pow2(k + 1)
    ensures EvenAt(k + 1, t)
  {
    assert Pow2(k + 2) == 2 * Pow2(k + 1) && Pow2(k + 1) == 2 * Pow2(k);
  }

  /** Every leaf weighs c. */
  ghost predicate Even(w: seq<nat>, c: nat, t: Shape) {
    Total(w, t) == c * Size(t)
  }

  lemma JoinWeighs(w: seq<nat>, c: nat, a: Shape, b: Shape)
    requires Even(w, c, a) && Even(w, c, b)
    ensures Even(w, c, Join(a, b))
  {
    assert Size(Join(a, b)) == Size(a) + Size(b);
    assert c * (Size(a) + Size(b)) == c * Size(a) + c * Size(b);
  }

  /** The first two of the list are combined. */
  lemma FirstTwoTaken(w: seq<nat>, c: nat, ts: seq<Shape>)
    requires |ts| >= 2 && forall i :: 0 <= i < |ts| ==> Even(w, c, ts[i])
    requires forall i, j :: 0 <= i < j < |ts| ==> Size(ts[i]) <= Size(ts[j])
    ensures Round(w, ts) == ts[2..] + [Join(ts[0], ts[1])]
  {
    hide Least, Size, Total;
    forall i, j | 0 <= i < j < |ts| ensures Total(w, ts[i]) <= Total(w, ts[j]) {
      assert Size(ts[i]) <= Size(ts[j]);
      Monotone(c, Size(ts[i]), Size(ts[j]));
    }
    LeastIs(Totals(w, ts), 0);
    assert Remove<Shape>(ts, 0) == ts[1..];
    LeastIs(Totals(w, ts[1..]), 0);
    assert Remove<Shape>(ts[1..], 0) == ts[2..];
  }

  lemma Monotone(c: nat, x: nat, y: nat)
    requires x <= y
    ensures c * x <= c * y
  {
  }

  lemma {:induction false} ReduceLevel(w: seq<nat>, c: nat, ts: seq<Shape>, k: nat) returns (m: nat)
    requires ts != [] && Level(k, ts) && forall i :: 0 <= i < |ts| ==> Even(w, c, ts[i])
    ensures EvenAt(m, Reduce(w, ts))
    decreases |ts|
  {
    hide EvenAt, Even, Round, Odd;
    if |ts| == 1 {
      m := k;
    } else {
      FirstTwoTaken(w, c, ts);
      JoinWeighs(w, c, ts[0], ts[1]);
      var n := NextLevel(k, ts);
      m := ReduceLevel(w, c, Round(w, ts), n);
    }
  }

  ghost predicate AllWeigh(w: seq<nat>, c: nat, leaves: seq<nat>) {
    forall i :: 0 <= i < |leaves| ==> WeightAt(w, leaves[i]) == c
  }

  /** Over leaves of one weight the tree is as low as any other with as many leaves: its
      height is the logarithm of their number, rounded up. */
  lemma EqualWeightsLowest(w: seq<nat>, c: nat, leaves: seq<nat>)
    requires leaves != [] && AllWeigh(w, c, leaves)
    ensures var h := Height(Reduce(w, LeavesOf(leaves)));
            Pow2(h) >= |leaves| && (h > 0 ==> Pow2(h - 1) < |leaves|)
    ensures forall other: Shape :: |Leaves(other)| == |leaves| ==> Height(Reduce(w, LeavesOf(leaves))) <= Height(other)
  {
    hide Reduce, Height, Level, EvenAt, Even, AllWeigh, AllLeaves, WeightAt;
    var ts := LeavesOf(leaves);
    StartLevel(w, c, leaves);
    var m := ReduceLevel(w, c, ts, 0);
    ReduceLeaves(w, ts);
    LeavesOfAll(leaves);
    var t := Reduce(w, ts);
    SameSize(leaves, Leaves(t));
    EvenHeight(m, t);
    forall other: Shape | |Leaves(other)| == |leaves| ensures Height(t) <= Height(other) {
      LowerHolds(t, other);
    }
  }

  lemma StartLevel(w: seq<nat>, c: nat, leaves: seq<nat>)
    requires AllWeigh(w, c, leaves)
    ensures Level(0, LeavesOf(leaves))
    ensures forall i :: 0 <= i < |leaves| ==> Even(w, c, LeavesOf(leaves)[i])
  {
  }

  lemma EvenHeight(m: nat, t: Shape)
    requires EvenAt(m, t)
    ensures Pow2(Height(t)) >= Size(t) && (Height(t) > 0 ==> Pow2(Height(t) - 1) < Size(t))
  {
    hide Height, Size;
    assert Pow2(m + 1) == 2 * Pow2(m);
  }

  lemma LowerHolds(t: Shape, other: Shape)
    requires Size(other) == Size(t) && (Height(t) > 0 ==> Pow2(Height(t) - 1) < Size(t))
    ensures Height(t) <= Height(other)
  {
    hide Height, Size, Pow2;
    SizeBelow(other);
    if Height(other) < Height(t) {
      PowGrows(Height(other), Height(t) - 1);
    }
  }
}
