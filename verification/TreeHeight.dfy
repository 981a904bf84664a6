/** Balancing chains of additions and multiplications (opt/treeheight.c): the region,
    what its variables are worth, and folding a list of values in any order. */
module TreeHeight {
  import opened Words

  // ---------- folding ----------

  datatype Op = Plus | Times

  function Combine(op: Op, a: int, b: int): int {
    if op.Plus? then Apply(Add, a, b) else Apply(Mul, a, b)
  }

  lemma CombineComm(op: Op, a: int, b: int)
    ensures Combine(op, a, b) == Combine(op, b, a)
  {
    assert a * b == b * a;
  }

  lemma WrapTimes(x: int, c: int)
    ensures Wrap(Wrap(x) * c) == Wrap(x * c)
  {
    var q := (x + 0x8000_0000) / 0x1_0000_0000;
    assert Wrap(x) == x - q * 0x1_0000_0000;
    assert Wrap(x) * c == x * c - (q * c) * 0x1_0000_0000 by {
      assert (q * 0x1_0000_0000) * c == (q * c) * 0x1_0000_0000;
    }
    WrapShift(x * c, q * c);
  }

  lemma WrapShift(y: int, q: int)
    ensures Wrap(y - q * 0x1_0000_0000) == Wrap(y)
  {
  }

  /** Modulo 2^32 the order of combining does not matter. */
  lemma CombineAssoc(op: Op, a: int, b: int, c: int)
    ensures Combine(op, Combine(op, a, b), c) == Combine(op, a, Combine(op, b, c))
  {
    if op.Plus? {
      SumAssoc(a, b, c);
    } else {
      WrapTimes(a * b, c);
      WrapTimes(b * c, a);
      assert (a * b) * c == (b * c) * a;
      assert a * Wrap(b * c) == Wrap(b * c) * a;
    }
  }

  lemma SumAssoc(a: int, b: int, c: int)
    ensures Wrap(Wrap(a + b) + c) == Wrap(a + Wrap(b + c))
  {
    WrapAdd(a + b, c);
    WrapAdd(b + c, a);
  }

  lemma WrapAdd(x: int, c: int)
    ensures Wrap(Wrap(x) + c) == Wrap(x + c)
  {
  }

  function Fold(op: Op, s: seq<int>): int
    requires s != []
  {
    if |s| == 1 then s[0] else Combine(op, Fold(op, s[..|s| - 1]), s[|s| - 1])
  }

  lemma {:induction false} FoldConcat(op: Op, s: seq<int>, t: seq<int>)
    requires s != [] && t != []
    ensures Fold(op, s + t) == Combine(op, Fold(op, s), Fold(op, t))
    decreases |t|
  {
    hide Combine;
    var n := |t| - 1;
    assert (s + t)[..|s + t| - 1] == s + t[..n];
    if n == 0 {
      assert s + t[..n] == s;
    } else {
      FoldConcat(op, s, t[..n]);
      CombineAssoc(op, Fold(op, s), Fold(op, t[..n]), t[n]);
    }
  }

  function Remove<T>(s: seq<T>, i: nat): (r: seq<T>)
    requires i < |s|
    ensures |r| == |s| - 1
  {
    s[..i] + s[i + 1..]
  }

  /** Taking an element out and combining it again. */
  lemma FoldRemove(op: Op, s: seq<int>, i: nat)
    requires i < |s| && |s| >= 2
    ensures Fold(op, s) == Combine(op, Fold(op, Remove(s, i)), s[i])
  {
    hide Combine;
    var a, b := s[..i], s[i + 1..];
    assert s == (a + [s[i]]) + b;
    if b == [] {
      assert s == a + [s[i]] && Remove(s, i) == a;
      FoldConcat(op, a, [s[i]]);
    } else if a == [] {
      assert s == [s[i]] + b && Remove(s, i) == b;
      FoldConcat(op, [s[i]], b);
      CombineComm(op, s[i], Fold(op, b));
    } else {
      FoldConcat(op, a + [s[i]], b);
      FoldConcat(op, a, [s[i]]);
      FoldConcat(op, a, b);
      CombineAssoc(op, Fold(op, a), s[i], Fold(op, b));
      CombineComm(op, s[i], Fold(op, b));
      CombineAssoc(op, Fold(op, a), Fold(op, b), s[i]);
    }
  }

  /** Two elements replaced by their combination, at the end of the list. */
  lemma FoldMerge(op: Op, s: seq<int>, i: nat, j: nat)
    requires i < |s| && |s| >= 2 && j < |s| - 1
    ensures var rest := Remove(Remove(s, i), j);
            Fold(op, s) == Fold(op, rest + [Combine(op, s[i], Remove(s, i)[j])])
  {
    hide Combine;
    var s1 := Remove(s, i);
    var x, y := s[i], s1[j];
    var rest := Remove(s1, j);
    FoldRemove(op, s, i);
    if |s| == 2 {
      assert rest == [] && s1 == [y];
      assert rest + [Combine(op, x, y)] == [Combine(op, x, y)];
      CombineComm(op, x, y);
    } else {
      FoldRemove(op, s1, j);
      FoldConcat(op, rest, [Combine(op, x, y)]);
      CombineAssoc(op, Fold(op, rest), y, x);
      CombineComm(op, x, y);
    }
  }

  // ---------- the region ----------

  datatype Ins = Ins(op: Op, dst: nat, left: nat, right: nat)

  type Env = map<nat, int>

  function Look(env: Env, v: nat): int {
    if v in env then env[v] else 0
  }

  function Run(code: seq<Ins>, env: Env): Env
    decreases |code|
  {
    if code == [] then env
    else
      var n := |code| - 1;
      var before := Run(code[..n], env);
      before[code[n].dst := Combine(code[n].op, Look(before, code[n].left), Look(before, code[n].right))]
  }

  lemma RunMore(code: seq<Ins>, ins: Ins, env: Env)
    ensures var before := Run(code, env);
            Run(code + [ins], env) ==
              before[ins.dst := Combine(ins.op, Look(before, ins.left), Look(before, ins.right))]
  {
    assert (code + [ins])[..|code|] == code;
  }

  lemma {:induction false} Untouched(code: seq<Ins>, env: Env, v: nat)
    requires forall i :: 0 <= i < |code| ==> code[i].dst != v
    ensures Look(Run(code, env), v) == Look(env, v)
    decreases |code|
  {
    if code != [] {
      Untouched(code[..|code| - 1], env, v);
    }
  }

  /** Where a variable is used: by an instruction of the region, or elsewhere. */
  datatype Site = InRegion(i: nat) | Elsewhere(id: nat)

  /** A maximal run of integer additions and multiplications, in SSA form. */
  datatype Region = Region(code: seq<Ins>, uses: seq<set<Site>>, consts: set<nat>)
  {
    ghost predicate Valid() {
      && (forall i :: 0 <= i < |code| ==>
             code[i].dst < |uses| && code[i].left < |uses| && code[i].right < |uses| && code[i].dst !in consts)
      && (forall i, j :: 0 <= i < j < |code| ==> code[i].dst != code[j].dst)
      && (forall i, j :: 0 <= i <= j < |code| ==> code[i].left != code[j].dst && code[i].right != code[j].dst)
      && (forall v, i: nat :: 0 <= v < |uses| ==>
             (InRegion(i) in uses[v] <==> i < |code| && (code[i].left == v || code[i].right == v)))
    }

    ghost predicate Defines(v: nat, i: nat) {
      i < |code| && code[i].dst == v
    }

    ghost predicate Defined(v: nat) {
      exists i: nat :: Defines(v, i)
    }

    /** The place of the defining instruction, counted from one; zero for none. */
    ghost function Place(v: nat): (p: nat)
      ensures p <= |code| && (p > 0 <==> Defined(v)) && (p > 0 ==> Defines(v, p - 1))
    {
      if Defined(v) then
        var i: nat :| Defines(v, i);
        i + 1
      else 0
    }

    /** What a variable is worth after the region. */
    ghost function Value(env: Env, v: nat): int
      requires Valid()
      decreases Place(v)
    {
      if Place(v) == 0 then Look(env, v)
      else
        var ins := code[Place(v) - 1];
        OperandsBefore(v);
        Combine(ins.op, Value(env, ins.left), Value(env, ins.right))
    }

    lemma OperandsBefore(v: nat)
      requires Valid() && Place(v) > 0
      ensures Place(code[Place(v) - 1].left) < Place(v) && Place(code[Place(v) - 1].right) < Place(v)
    {
    }

    lemma PlaceOf(i: nat)
      requires Valid() && i < |code|
      ensures Place(code[i].dst) == i + 1
    {
      assert Defines(code[i].dst, i);
    }

    lemma NotDefined(v: nat, n: nat)
      requires Place(v) == 0 && n <= |code|
      ensures forall i :: 0 <= i < n ==> code[..n][i].dst != v
    {
      forall i | 0 <= i < n ensures code[..n][i].dst != v {
        assert !Defines(v, i);
      }
    }

    /** Running the region computes the values. */
    lemma {:induction false} RunIsValue(env: Env, n: nat, v: nat)
      requires Valid() && n <= |code| && Place(v) <= n
      ensures Look(Run(code[..n], env), v) == Value(env, v)
      decreases n
    {
      hide Combine, Place, Run;
      if Place(v) == 0 {
        NotDefined(v, n);
        Untouched(code[..n], env, v);
      } else {
        var ins, m := code[n - 1], n - 1;
        assert code[..n] == code[..m] + [ins];
        RunMore(code[..m], ins, env);
        if Place(v) == n {
          OperandsBefore(v);
          RunIsValue(env, m, ins.left);
          RunIsValue(env, m, ins.right);
        } else {
          PlaceOf(m);
          RunIsValue(env, m, v);
        }
      }
    }

    /** A root is needed as such: used more than once, elsewhere, or by another operation. */
    predicate Root(i: nat)
      requires i < |code| && code[i].dst < |uses|
    {
      var u := uses[code[i].dst];
      |u| > 1 || (|u| == 1 && !exists j :: 0 <= j < |code| && InRegion(j) in u && code[j].op == code[i].op)
    }

    ghost predicate IsRoot(v: nat)
      requires Valid()
    {
      Place(v) > 0 && Root(Place(v) - 1)
    }

    /** The instruction k is the only use, and it has the same operation. */
    ghost predicate OnlyUse(v: nat, k: nat)
      requires Valid() && Place(v) > 0
    {
      k < |code| && v < |uses| && uses[v] == {InRegion(k)} && code[k].op == code[Place(v) - 1].op
    }

    /** A variable inside a tree of one operation. */
    ghost predicate Inner(v: nat)
      requires Valid()
    {
      Place(v) > 0 && exists k: nat :: OnlyUse(v, k)
    }

    /** The ends of the tree of one operation that hangs under an operand, from left to right. */
    ghost function Ends(v: nat): seq<nat>
      requires Valid()
      decreases Place(v)
    {
      if !Inner(v) then [v]
      else
        OperandsBefore(v);
        Ends(code[Place(v) - 1].left) + Ends(code[Place(v) - 1].right)
    }

    /** The leaves of a root. */
    ghost function TreeEnds(v: nat): seq<nat>
      requires Valid() && Place(v) > 0
    {
      Ends(code[Place(v) - 1].left) + Ends(code[Place(v) - 1].right)
    }

    /** How many variables from outside the region the value is made of. */
    ghost function Weight(v: nat): nat
      requires Valid()
      decreases Place(v)
    {
      if Place(v) == 0 then (if v in consts then 0 else 1)
      else
        OperandsBefore(v);
        Weight(code[Place(v) - 1].left) + Weight(code[Place(v) - 1].right)
    }

    /** The value of the first is computed with the second. */
    ghost predicate Needs(v: nat, u: nat)
      requires Valid()
      decreases Place(v)
    {
      v == u || (Place(v) > 0 && (OperandsBefore(v);
        Needs(code[Place(v) - 1].left, u) || Needs(code[Place(v) - 1].right, u)))
    }
  }

  /** A variable of the region is a root if and only if it is used, and not just by one
      instruction of the region with the same operation. */
  lemma RootExactly(r: Region, v: nat)
    requires r.Valid() && r.Place(v) > 0
    ensures v < |r.uses| && (r.IsRoot(v) <==> r.uses[v] != {} && !r.Inner(v))
  {
    var u := r.uses[v];
    var i := r.Place(v) - 1;
    if r.Inner(v) {
      var k: nat :| r.OnlyUse(v, k);
      assert InRegion(k) in u;
    } else if |u| == 1 && !r.IsRoot(v) {
      var j :| 0 <= j < |r.code| && InRegion(j) in u && r.code[j].op == r.code[i].op;
      OnlyOne(u, InRegion(j));
      assert r.OnlyUse(v, j);
    } else if u != {} {
      var s :| s in u;
      NotEmpty(u, s);
    }
  }

  /** The leaves of a root are not inside the tree: they come from before the region, or they
      are roots themselves. */
  lemma {:induction false} EndsOutside(r: Region, v: nat, e: nat)
    requires r.Valid() && e in r.Ends(v) && v < |r.uses| && (r.Place(v) > 0 ==> r.uses[v] != {})
    ensures !r.Inner(e) && (r.Place(e) == 0 || r.IsRoot(e))
    decreases r.Place(v)
  {
    if r.Inner(v) {
      r.OperandsBefore(v);
      var ins := r.code[r.Place(v) - 1];
      assert InRegion(r.Place(v) - 1) in r.uses[ins.left] && InRegion(r.Place(v) - 1) in r.uses[ins.right];
      if e in r.Ends(ins.left) {
        EndsOutside(r, ins.left, e);
      } else {
        EndsOutside(r, ins.right, e);
      }
    } else if r.Place(v) > 0 {
      RootExactly(r, v);
    }
  }

  /** Values used outside the region belong to roots. */
  lemma UsedElsewhereIsRoot(r: Region, v: nat, id: nat)
    requires r.Valid() && r.Defined(v) && v < |r.uses| && Elsewhere(id) in r.uses[v]
    ensures r.IsRoot(v)
  {
    var u := r.uses[v];
    var i := r.Place(v) - 1;
    if |u| == 1 {
      assert u == {Elsewhere(id)} by { OnlyOne(u, Elsewhere(id)); }
    } else {
      NotEmpty(u, Elsewhere(id));
    }
  }

  lemma OnlyOne(u: set<Site>, s: Site)
    requires |u| == 1 && s in u
    ensures u == {s}
  {
    assert |u - {s}| == 0;
    assert u - {s} == {};
  }

  lemma NotEmpty(u: set<Site>, s: Site)
    requires s in u
    ensures |u| > 0
  {
  }

  /** An interior variable is used just by one instruction of the region, with the same
      operation. */
  lemma InteriorUse(r: Region, v: nat, k: nat)
    requires r.Valid() && r.Place(v) > 0 && !r.IsRoot(v) && k < |r.code|
    requires (r.code[k].left == v || r.code[k].right == v)
    ensures r.code[r.Place(v) - 1].op == r.code[k].op
  {
    var i := r.Place(v) - 1;
    var u := r.uses[v];
    assert InRegion(k) in u;
    NotEmpty(u, InRegion(k));
    OnlyOne(u, InRegion(k));
  }
}
