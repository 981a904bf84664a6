/** BalanceTree and do_flatten: the leaves of a root are combined again, two lightest
    first. */
module TreeBalance {
  import opened Words
  import opened TreeHeight
  import opened Huffman

  /** The current values of a list of variables. */
  function Looks(env: Env, items: seq<nat>): (r: seq<int>)
    ensures |r| == |items|
  {
    seq(|items|, i requires 0 <= i < |items| => Look(env, items[i]))
  }

  ghost function Values(r: Region, env: Env, items: seq<nat>): (s: seq<int>)
    requires r.Valid()
    ensures |s| == |items|
  {
    seq(|items|, i requires 0 <= i < |items| => r.Value(env, items[i]))
  }

  ghost predicate Emits(code: seq<Ins>, v: nat) {
    exists i :: 0 <= i < |code| && code[i].dst == v
  }

  /** A variable that can be read after the code: not defined by the region, or defined
      by the code. */
  ghost predicate Readable(r: Region, code: seq<Ins>, v: nat) {
    (v < |r.uses| && r.Place(v) == 0) || Emits(code, v)
  }

  /** Every operand can be read where it is used. */
  ghost predicate DefinedBeforeUse(r: Region, code: seq<Ins>) {
    forall i :: 0 <= i < |code| ==> Readable(r, code[..i], code[i].left) && Readable(r, code[..i], code[i].right)
  }

  /** The new code writes balanced roots and new variables only. */
  ghost predicate WritesOnly(r: Region, code: seq<Ins>, done: set<nat>, vars: nat)
    requires r.Valid()
  {
    && (forall i :: 0 <= i < |code| ==> code[i].dst < vars && (code[i].dst in done || code[i].dst >= |r.uses|))
    && (forall v :: v in done ==> v < |r.uses| && r.IsRoot(v) && Emits(code, v))
  }

  ghost predicate RootsRight(r: Region, code: seq<Ins>, done: set<nat>)
    requires r.Valid()
  {
    forall env: Env, v: nat :: v in done ==> Look(Run(code, env), v) == r.Value(env, v)
  }

  lemma EmitsMore(code: seq<Ins>, more: seq<Ins>, v: nat)
    requires Emits(code, v)
    ensures Emits(code + more, v)
  {
    var i :| 0 <= i < |code| && code[i].dst == v;
    assert (code + more)[i].dst == v;
  }

  lemma EmitsLast(code: seq<Ins>, ins: Ins)
    ensures Emits(code + [ins], ins.dst)
  {
    assert (code + [ins])[|code|].dst == ins.dst;
  }

  lemma DefinedMore(r: Region, code: seq<Ins>, ins: Ins)
    requires DefinedBeforeUse(r, code) && Readable(r, code, ins.left) && Readable(r, code, ins.right)
    ensures DefinedBeforeUse(r, code + [ins])
  {
    hide Readable;
    forall i | 0 <= i < |code + [ins]|
      ensures Readable(r, (code + [ins])[..i], (code + [ins])[i].left)
      ensures Readable(r, (code + [ins])[..i], (code + [ins])[i].right)
    {
      assert (code + [ins])[..i] == code[..i];
      if i == |code| {
        assert code[..i] == code;
      }
    }
  }

  /** A leaf that can be used: its current value is what it is worth. */
  lemma LeafValue(r: Region, code: seq<Ins>, done: set<nat>, vars: nat, v: nat, env: Env)
    requires r.Valid() && WritesOnly(r, code, done, vars) && RootsRight(r, code, done)
    requires v < |r.uses| && (r.Place(v) == 0 || v in done)
    ensures Look(Run(code, env), v) == r.Value(env, v)
  {
    if v !in done {
      forall i | 0 <= i < |code| ensures code[i].dst != v {
        assert code[i].dst in done ==> r.IsRoot(code[i].dst);
      }
      Untouched(code, env, v);
    }
  }

  /** One instruction more, into a variable that has not been written: what was right stays right. */
  lemma RootsStayRight(r: Region, code: seq<Ins>, done: set<nat>, ins: Ins)
    requires r.Valid() && RootsRight(r, code, done) && ins.dst !in done
    ensures RootsRight(r, code + [ins], done)
  {
    forall env: Env, v: nat | v in done ensures Look(Run(code + [ins], env), v) == r.Value(env, v) {
      RunMore(code, ins, env);
    }
  }

  /** The items still to be combined for the root are worth the root. */
  ghost predicate Worth(r: Region, code: seq<Ins>, op: Op, items: seq<nat>, root: nat)
    requires r.Valid() && items != []
  {
    forall env: Env :: Fold(op, Looks(Run(code, env), items)) == r.Value(env, root)
  }

  ghost predicate LeavesWorth(r: Region, op: Op, items: seq<nat>, p: nat)
    requires r.Valid()
  {
    items != [] && forall env: Env :: Fold(op, Values(r, env, items)) == r.Value(env, p)
  }

  lemma ValueStep(r: Region, env: Env, p: nat)
    requires r.Valid() && r.Place(p) > 0
    ensures var ins := r.code[r.Place(p) - 1];
            r.Value(env, p) == Combine(ins.op, r.Value(env, ins.left), r.Value(env, ins.right))
  {
    hide Combine, Region.Place;
    r.OperandsBefore(p);
  }

  lemma JoinLeaves(r: Region, op: Op, a: seq<nat>, b: seq<nat>, x: nat, y: nat, p: nat)
    requires r.Valid() && LeavesWorth(r, op, a, x) && LeavesWorth(r, op, b, y)
    requires r.Place(p) > 0 && r.code[r.Place(p) - 1] == Ins(op, p, x, y)
    ensures LeavesWorth(r, op, a + b, p)
  {
    hide Combine, Region.Value, Region.Place, Fold, Region.Valid;
    forall env: Env ensures Fold(op, Values(r, env, a + b)) == r.Value(env, p) {
      assert Values(r, env, a + b) == Values(r, env, a) + Values(r, env, b);
      FoldConcat(op, Values(r, env, a), Values(r, env, b));
      ValueStep(r, env, p);
    }
  }

  lemma LeavesSome(r: Region, op: Op, items: seq<nat>, p: nat)
    requires r.Valid() && LeavesWorth(r, op, items, p)
    ensures items != []
  {
  }

  lemma OneLeaf(r: Region, op: Op, p: nat)
    requires r.Valid()
    ensures LeavesWorth(r, op, [p], p)
  {
  }

  /** Combining two items into a new variable keeps the worth of the list. */
  lemma MergeWorth(r: Region, code: seq<Ins>, op: Op, items: seq<nat>, i: nat, j: nat, root: nat, n: nat)
    requires r.Valid() && |items| >= 2 && Worth(r, code, op, items, root) && i < |items| && j < |items| - 1
    requires forall k :: 0 <= k < |items| ==> items[k] != n
    ensures var rest := Remove<nat>(Remove<nat>(items, i), j);
            Worth(r, code + [Ins(op, n, items[i], Remove<nat>(items, i)[j])], op, rest + [n], root)
  {
    hide Combine;
    var rest := Remove<nat>(Remove<nat>(items, i), j);
    var ins := Ins(op, n, items[i], Remove<nat>(items, i)[j]);
    forall env: Env ensures Fold(op, Looks(Run(code + [ins], env), rest + [n])) == r.Value(env, root) {
      var before := Run(code, env);
      RunMore(code, ins, env);
      FoldMerge(op, Looks(before, items), i, j);
      LooksRemove(before, items, i);
      LooksRemove(before, Remove<nat>(items, i), j);
      assert Looks(Run(code + [ins], env), rest + [n]) ==
        Looks(before, rest) + [Combine(op, Look(before, items[i]), Look(before, Remove<nat>(items, i)[j]))] by {
        NotIn(items, i, j, n);
      }
    }
  }

  lemma LooksRemove(env: Env, items: seq<nat>, i: nat)
    requires i < |items|
    ensures Looks(env, Remove<nat>(items, i)) == Remove<int>(Looks(env, items), i)
  {
  }

  lemma NotIn(items: seq<nat>, i: nat, j: nat, n: nat)
    requires i < |items| && j < |items| - 1 && forall k :: 0 <= k < |items| ==> items[k] != n
    ensures forall k :: 0 <= k < |Remove<nat>(Remove<nat>(items, i), j)| ==>
              Remove<nat>(Remove<nat>(items, i), j)[k] != n
  {
  }

  /** The last two items give the root itself. */
  lemma LastWorth(r: Region, code: seq<Ins>, op: Op, items: seq<nat>, i: nat, root: nat)
    requires r.Valid() && |items| == 2 && Worth(r, code, op, items, root) && i < 2
    ensures var ins := Ins(op, root, items[i], Remove<nat>(items, i)[0]);
            forall env: Env :: Look(Run(code + [ins], env), root) == r.Value(env, root)
  {
    hide Combine;
    var ins := Ins(op, root, items[i], Remove<nat>(items, i)[0]);
    forall env: Env ensures Look(Run(code + [ins], env), root) == r.Value(env, root) {
      RunMore(code, ins, env);
      var s := Looks(Run(code, env), items);
      assert Fold(op, s) == Combine(op, Fold(op, s[..1]), s[1]) && s[..1] == [s[0]];
      CombineComm(op, s[0], s[1]);
    }
  }

  /** An item that can be combined: weighed, and either from outside the region or a
      balanced root. */
  ghost predicate Usable(r: Region, weight: seq<int>, done: set<nat>, v: nat) {
    && r.Valid() && v < |weight| && v < |r.uses| && weight[v] == r.Weight(v)
    && (r.Place(v) == 0 || v in done)
  }

  /** The roots that have a weight are the balanced ones. */
  ghost predicate Weighed(r: Region, weight: seq<int>, done: set<nat>)
    requires r.Valid()
  {
    |weight| >= |r.uses|
    && forall v: nat :: v < |r.uses| && r.IsRoot(v) ==>
         (weight[v] >= 0 <==> v in done) && (v in done ==> weight[v] == r.Weight(v))
  }

  /** What a call for a node at place k or before may change. */
  ghost predicate Kept(r: Region, weight0: seq<int>, done0: set<nat>, weight: seq<int>, done: set<nat>, k: nat) {
    && |r.uses| <= |weight0| <= |weight| && done0 <= done
    && (forall v: nat :: v < |r.uses| && r.Place(v) > k ==> weight[v] == weight0[v] && (v in done <==> v in done0))
    && (forall v: nat :: Usable(r, weight0, done0, v) ==> Usable(r, weight, done, v))
  }

  lemma KeptTrans(r: Region, w0: seq<int>, d0: set<nat>, w1: seq<int>, d1: set<nat>, w2: seq<int>, d2: set<nat>, j: nat,
                  k: nat)
    requires Kept(r, w0, d0, w1, d1, j) && Kept(r, w1, d1, w2, d2, k) && j <= k
    ensures Kept(r, w0, d0, w2, d2, k)
  {
    hide Region.Place, Usable;
  }

  lemma KeptWider(r: Region, w0: seq<int>, d0: set<nat>, w1: seq<int>, d1: set<nat>, j: nat, k: nat)
    requires Kept(r, w0, d0, w1, d1, j) && j <= k
    ensures Kept(r, w0, d0, w1, d1, k)
  {
    hide Region.Place, Usable;
  }

  /** A leaf from outside the region is weighed. */
  lemma WeighOutside(r: Region, weight: seq<int>, done: set<nat>, p: nat, w: nat, k: nat)
    requires r.Valid() && Weighed(r, weight, done) && p < |r.uses| && r.Place(p) == 0
    requires w == if p in r.consts then 0 else 1
    ensures Weighed(r, weight[p := w], done) && Kept(r, weight, done, weight[p := w], done, k)
    ensures Usable(r, weight[p := w], done, p)
  {
    hide Region.Valid;
  }

  // ---------- the trees of the new code ----------

  /** What the code computes a variable from: its instructions read backwards. */
  ghost function TreeOf(code: seq<Ins>, v: nat): Shape
    decreases |code|
  {
    if code == [] then Leaf(v)
    else
      var n := |code| - 1;
      if code[n].dst == v then Join(TreeOf(code[..n], code[n].left), TreeOf(code[..n], code[n].right))
      else TreeOf(code[..n], v)
  }

  lemma TreeMore(code: seq<Ins>, ins: Ins, v: nat)
    ensures TreeOf(code + [ins], v) ==
            if ins.dst == v then Join(TreeOf(code, ins.left), TreeOf(code, ins.right)) else TreeOf(code, v)
  {
    assert (code + [ins])[..|code|] == code;
  }

  ghost function AllWeights(r: Region): (w: seq<nat>)
    requires r.Valid()
    ensures |w| == |r.uses|
  {
    seq(|r.uses|, v requires 0 <= v < |r.uses| => r.Weight(v))
  }

  ghost predicate OneOp(code: seq<Ins>, op: Op) {
    forall i :: 0 <= i < |code| ==> code[i].op == op
  }

  /** The code computes the variable from the leaves, the two lightest combined first. */
  ghost predicate Combines(w: seq<nat>, code: seq<Ins>, op: Op, leaves: seq<nat>, v: nat) {
    && leaves != [] && OneOp(code, op) && |code| + 1 == |leaves|
    && TreeOf(code, v) == Reduce(w, LeavesOf(leaves))
  }

  ghost predicate BuiltAt(r: Region, code: seq<Ins>, v: nat, i: nat, j: nat) {
    && r.Valid() && r.Place(v) > 0 && i <= j <= |code|
    && Combines(AllWeights(r), code[i..j], r.code[r.Place(v) - 1].op, r.TreeEnds(v), v)
  }

  /** Somewhere the code computes the root from the ends of its tree. */
  ghost predicate Built(r: Region, code: seq<Ins>, v: nat) {
    exists i: nat, j: nat :: BuiltAt(r, code, v, i, j)
  }

  ghost predicate AllBuilt(r: Region, code: seq<Ins>, done: set<nat>) {
    forall v: nat :: v in done ==> Built(r, code, v)
  }

  lemma BuiltMore(r: Region, code: seq<Ins>, more: seq<Ins>, done: set<nat>)
    requires AllBuilt(r, code, done) && code <= more
    ensures AllBuilt(r, more, done)
  {
    hide Combines;
    forall v: nat | v in done ensures Built(r, more, v) {
      var i: nat, j: nat :| BuiltAt(r, code, v, i, j);
      assert more[i..j] == code[i..j];
      assert BuiltAt(r, more, v, i, j);
    }
  }

  lemma BuiltLast(r: Region, code: seq<Ins>, slice: seq<Ins>, done: set<nat>, v: nat)
    requires r.Valid() && AllBuilt(r, code, done) && r.Place(v) > 0
    requires Combines(AllWeights(r), slice, r.code[r.Place(v) - 1].op, r.TreeEnds(v), v)
    ensures AllBuilt(r, code + slice, done + {v})
  {
    hide Combines;
    BuiltMore(r, code, code + slice, done);
    assert (code + slice)[|code|..|code + slice|] == slice;
    assert BuiltAt(r, code + slice, v, |code|, |code + slice|);
  }

  /** The weights of the ends of an operand add up to its own. */
  lemma {:induction false} EndsWeigh(r: Region, v: nat)
    requires r.Valid() && v < |r.uses|
    ensures Sum(Weights(AllWeights(r), r.Ends(v))) == r.Weight(v)
    decreases r.Place(v)
  {
    hide Sum, Weights, AllWeights, Region.Inner;
    var w := AllWeights(r);
    if r.Inner(v) {
      InnerPlace(r, v);
      r.OperandsBefore(v);
      var ins := r.code[r.Place(v) - 1];
      EndsWeigh(r, ins.left);
      EndsWeigh(r, ins.right);
      BothWeigh(w, r.Ends(ins.left), r.Ends(ins.right));
    } else {
      OneWeighs(r, v);
    }
  }

  lemma InnerPlace(r: Region, v: nat)
    requires r.Valid() && r.Inner(v)
    ensures r.Place(v) > 0
  {
  }

  lemma OneWeighs(r: Region, v: nat)
    requires r.Valid() && v < |r.uses|
    ensures Sum(Weights(AllWeights(r), [v])) == r.Weight(v)
  {
    hide Region.Weight;
    assert Weights(AllWeights(r), [v])[1..] == [];
  }

  lemma BothWeigh(w: seq<nat>, a: seq<nat>, b: seq<nat>)
    ensures Sum(Weights(w, a + b)) == Sum(Weights(w, a)) + Sum(Weights(w, b))
  {
    assert Weights(w, a + b) == Weights(w, a) + Weights(w, b);
    SumConcat(Weights(w, a), Weights(w, b));
  }

  /** The items of the merging loop and the trees that they stand for. */
  ghost predicate Growing(w: seq<nat>, weight: seq<int>, slice: seq<Ins>, op: Op, items: seq<nat>, trees: seq<Shape>,
                          leaves: seq<nat>) {
    && leaves != [] && |items| == |trees| > 0 && OneOp(slice, op) && |slice| + |items| == |leaves|
    && Reduce(w, trees) == Reduce(w, LeavesOf(leaves))
    && forall k :: 0 <= k < |items| ==>
         items[k] < |weight| && TreeOf(slice, items[k]) == trees[k] && weight[items[k]] == Total(w, trees[k])
  }

  lemma StartGrowing(r: Region, weight: seq<int>, done: set<nat>, op: Op, leaves: seq<nat>, root: nat, v: int)
    requires r.Valid() && leaves != [] && forall k :: 0 <= k < |leaves| ==> Usable(r, weight, done, leaves[k])
    requires root !in done && r.Place(root) > 0 && root < |weight|
    ensures Growing(AllWeights(r), weight[root := v], [], op, leaves, LeavesOf(leaves), leaves)
  {
    hide Region.Valid, Reduce;
  }

  /** The item that the loop of BalanceTree finds. */
  ghost predicate LightestAt(weight: seq<int>, items: seq<nat>, i: nat) {
    && i < |items| && (forall k :: 0 <= k < |items| ==> items[k] < |weight|)
    && (forall k :: 0 <= k < |items| ==> weight[items[i]] <= weight[items[k]])
    && (forall k :: 0 <= k < i ==> weight[items[i]] < weight[items[k]])
  }

  lemma LightestIs(w: seq<nat>, weight: seq<int>, items: seq<nat>, trees: seq<Shape>, i: nat)
    requires |items| == |trees| && LightestAt(weight, items, i)
    requires forall k :: 0 <= k < |items| ==> weight[items[k]] == Total(w, trees[k])
    ensures Least(Totals(w, trees)) == i
  {
    hide Total, Least;
    LeastIs(Totals(w, trees), i);
  }

  /** The two items that are found are those that the round combines. */
  lemma RoundIs(w: seq<nat>, weight: seq<int>, items: seq<nat>, trees: seq<Shape>, i: nat, j: nat)
    requires |items| == |trees| >= 2 && LightestAt(weight, items, i) && LightestAt(weight, Remove<nat>(items, i), j)
    requires forall k :: 0 <= k < |items| ==> weight[items[k]] == Total(w, trees[k])
    ensures var rest := Remove<Shape>(trees, i);
            Round(w, trees) == Remove<Shape>(rest, j) + [Join(trees[i], rest[j])]
  {
    hide Total, Least;
    LightestIs(w, weight, items, trees, i);
    LightestIs(w, weight, Remove<nat>(items, i), Remove<Shape>(trees, i), j);
  }

  lemma GrowTwo(w: seq<nat>, weight: seq<int>, slice: seq<Ins>, op: Op, items: seq<nat>, trees: seq<Shape>,
                leaves: seq<nat>, i: nat, j: nat)
    requires Growing(w, weight, slice, op, items, trees, leaves) && |items| > 2
    requires LightestAt(weight, items, i) && LightestAt(weight, Remove<nat>(items, i), j)
    ensures var a, b, n := items[i], Remove<nat>(items, i)[j], |weight|;
            Growing(w, weight + [weight[a] + weight[b]], slice + [Ins(op, n, a, b)], op,
              Remove<nat>(Remove<nat>(items, i), j) + [n], Round(w, trees), leaves)
  {
    hide Reduce, Total, TreeOf, Round, OneOp;
    var a, b, n: nat := items[i], Remove<nat>(items, i)[j], |weight|;
    RoundIs(w, weight, items, trees, i, j);
    ReduceRound(w, trees);
    NewTree(w, slice, op, n, a, b);
    OneMore(slice, op, n, a, b);
    RestGrows(w, weight, slice, Ins(op, n, a, b), items, trees, i, j);
  }

  lemma OneMore(slice: seq<Ins>, op: Op, n: nat, a: nat, b: nat)
    requires OneOp(slice, op)
    ensures OneOp(slice + [Ins(op, n, a, b)], op)
  {
  }

  lemma RestGrows(w: seq<nat>, weight: seq<int>, slice: seq<Ins>, ins: Ins, items: seq<nat>, trees: seq<Shape>, i: nat,
                  j: nat)
    requires |items| == |trees| && i < |items| && j < |items| - 1 && ins.dst == |weight|
    requires forall k :: 0 <= k < |items| ==>
               items[k] < |weight| && TreeOf(slice, items[k]) == trees[k] && weight[items[k]] == Total(w, trees[k])
    ensures var rest, ts := Remove<nat>(Remove<nat>(items, i), j), Remove<Shape>(Remove<Shape>(trees, i), j);
            forall k :: 0 <= k < |rest| ==>
              rest[k] < |weight| && TreeOf(slice + [ins], rest[k]) == ts[k] && weight[rest[k]] == Total(w, ts[k])
  {
    hide Total, TreeOf;
    var rest, ts := Remove<nat>(Remove<nat>(items, i), j), Remove<Shape>(Remove<Shape>(trees, i), j);
    forall k | 0 <= k < |rest|
      ensures rest[k] < |weight| && TreeOf(slice + [ins], rest[k]) == ts[k] && weight[rest[k]] == Total(w, ts[k])
    {
      TreeMore(slice, ins, rest[k]);
    }
  }

  lemma ReduceRound(w: seq<nat>, trees: seq<Shape>)
    requires |trees| >= 2
    ensures Reduce(w, trees) == Reduce(w, Round(w, trees))
  {
    hide Round;
  }

  lemma NewTree(w: seq<nat>, slice: seq<Ins>, op: Op, n: nat, a: nat, b: nat)
    ensures TreeOf(slice + [Ins(op, n, a, b)], n) == Join(TreeOf(slice, a), TreeOf(slice, b))
    ensures Total(w, Join(TreeOf(slice, a), TreeOf(slice, b))) ==
              Total(w, TreeOf(slice, a)) + Total(w, TreeOf(slice, b))
  {
    TreeMore(slice, Ins(op, n, a, b), n);
  }

  lemma GrowLast(w: seq<nat>, weight: seq<int>, slice: seq<Ins>, op: Op, items: seq<nat>, trees: seq<Shape>,
                 leaves: seq<nat>, i: nat, j: nat, root: nat)
    requires Growing(w, weight, slice, op, items, trees, leaves) && |items| == 2
    requires LightestAt(weight, items, i) && LightestAt(weight, Remove<nat>(items, i), j)
    ensures var a, b := items[i], Remove<nat>(items, i)[j];
            && Combines(w, slice + [Ins(op, root, a, b)], op, leaves, root)
            && weight[a] + weight[b] == Sum(Weights(w, leaves))
  {
    hide Total, TreeOf;
    var a, b := items[i], Remove<nat>(items, i)[j];
    RoundIs(w, weight, items, trees, i, j);
    NewTree(w, slice, op, root, a, b);
    var both := Join(trees[i], Remove<Shape>(trees, i)[j]);
    assert Remove<Shape>(Remove<Shape>(trees, i), j) == [];
    assert Round(w, trees) == [both];
    ReduceRound(w, trees);
    assert Reduce(w, LeavesOf(leaves)) == both;
    ReduceTotal(w, LeavesOf(leaves));
    assert Totals(w, LeavesOf(leaves)) == Weights(w, leaves) by { LeafTotals(w, leaves); }
  }

  lemma LeafTotals(w: seq<nat>, leaves: seq<nat>)
    ensures Totals(w, LeavesOf(leaves)) == Weights(w, leaves)
  {
  }

  /** What the new code gives a root: the ends of its tree combined in such a way that no
      other tree over them has a smaller weighted path length, and, when they all weigh the
      same, none is lower. */
  lemma BuiltBest(r: Region, code: seq<Ins>, v: nat, i: nat, j: nat)
    requires BuiltAt(r, code, v, i, j)
    ensures var t := TreeOf(code[i..j], v);
            var ends := r.TreeEnds(v);
            && multiset(Leaves(t)) == multiset(ends)
            && (forall other: Shape :: multiset(Leaves(other)) == multiset(ends) ==>
                 Cost(AllWeights(r), t) <= Cost(AllWeights(r), other))
            && (forall c: nat :: AllWeigh(AllWeights(r), c, ends) ==>
                 Pow2(Height(t)) >= |ends| && (Height(t) > 0 ==> Pow2(Height(t) - 1) < |ends|))
  {
    hide Region.Valid, Region.TreeEnds, TreeOf, Reduce, Cost, Leaves, Height, AllWeigh;
    var w, ends := AllWeights(r), r.TreeEnds(v);
    LightestFirstIsBest(w, ends, Reduce(w, LeavesOf(ends))) by { ReduceLeaves(w, LeavesOf(ends)); LeavesOfAll(ends); }
    forall other: Shape | multiset(Leaves(other)) == multiset(ends)
      ensures Cost(w, Reduce(w, LeavesOf(ends))) <= Cost(w, other)
    {
      LightestFirstIsBest(w, ends, other);
    }
    forall c: nat | AllWeigh(w, c, ends)
      ensures var h := Height(Reduce(w, LeavesOf(ends)));
              Pow2(h) >= |ends| && (h > 0 ==> Pow2(h - 1) < |ends|)
    {
      EqualWeightsLowest(w, c, ends);
    }
  }

  class Balancer {
    const r: Region
    var weight: seq<int>
    var code: seq<Ins>
    ghost var done: set<nat>

    ghost predicate Valid()
      reads this
    {
      && r.Valid() && Weighed(r, weight, done)
      && WritesOnly(r, code, done, |weight|) && RootsRight(r, code, done) && DefinedBeforeUse(r, code)
      && AllBuilt(r, code, done)
    }

    constructor (r: Region)
      requires r.Valid()
      ensures this.r == r && Valid() && code == [] && done == {}
    {
      this.r := r;
      weight := seq(|r.uses|, v => -1);
      code, done := [], {};
    }

    /** The first of the lightest items. */
    method Lightest(items: seq<nat>) returns (i: nat)
      requires items != [] && forall k :: 0 <= k < |items| ==> items[k] < |weight|
      ensures LightestAt(weight, items, i)
    {
      i := 0;
      var k := 1;
      while k < |items|
        invariant 1 <= k <= |items| && i < k && forall j :: 0 <= j < k ==> weight[items[i]] <= weight[items[j]]
        invariant forall j :: 0 <= j < i ==> weight[items[i]] < weight[items[j]]
      {
        if weight[items[i]] > weight[items[k]] {
          i := k;
        }
        k := k + 1;
      }
    }

    /** do_flatten: constants, variables from before the region and roots are leaves; what
        lies between is opened. */
    method Flatten(p: nat, ghost k: nat) returns (leaves: seq<nat>, w: int)
      requires Valid() && p < |r.uses| && k < |r.code| && (r.code[k].left == p || r.code[k].right == p)
      modifies this
      ensures Valid() && leaves == r.Ends(p) && LeavesWorth(r, r.code[k].op, leaves, p)
      ensures forall i :: 0 <= i < |leaves| ==> Usable(r, weight, done, leaves[i])
      ensures Kept(r, old(weight), old(done), weight, done, k)
      ensures old(code) <= code && OnlyNeeded(r, old(done), done, p)
      decreases r.Place(p), 1
    {
      hide *;
      ValidFacts();
      BeforeUse(r, p, k);
      var i := Definer(p);
      NoneNeeded(r, done, p);
      EndsAt(r, p, k);
      if p in r.consts {
        ConstIsOutside(r, p);
        WeighOutside(r, weight, done, p, 0, k);
        SameLength(p, 0);
        weight := weight[p := 0];
        leaves, w := [p], 0;
        OneLeaf(r, r.code[k].op, p);
        MakeValid();
      } else if i == |r.code| {
        WeighOutside(r, weight, done, p, 1, k);
        SameLength(p, 1);
        weight := weight[p := 1];
        leaves, w := [p], 1;
        OneLeaf(r, r.code[k].op, p);
        MakeValid();
      } else if r.Root(i) {
        ghost var w0, d0 := weight, done;
        RootAt(r, p, i);
        Balance(p, i);
        UsableFacts(r, weight, done, p);
        leaves, w := [p], weight[p];
        OneLeaf(r, r.code[k].op, p);
        KeptWider(r, w0, d0, weight, done, i + 1, k);
      } else {
        RootAt(r, p, i);
        leaves, w := Open(p, i, k);
      }
    }

    /** The last branch of do_flatten. */
    method Open(p: nat, i: nat, ghost k: nat) returns (leaves: seq<nat>, w: int)
      requires Valid() && p < |r.uses| && k < |r.code| && (r.code[k].left == p || r.code[k].right == p)
      requires i < |r.code| && r.Place(p) == i + 1 && !r.IsRoot(p)
      modifies this
      ensures Valid() && leaves == r.Ends(p) && LeavesWorth(r, r.code[k].op, leaves, p)
      ensures forall i :: 0 <= i < |leaves| ==> Usable(r, weight, done, leaves[i])
      ensures Kept(r, old(weight), old(done), weight, done, k)
      ensures old(code) <= code && OnlyNeeded(r, old(done), done, p)
      decreases r.Place(p), 0
    {
      hide *;
      ValidFacts();
      InteriorUse(r, p, k);
      EndsAt(r, p, k);
      BeforeUse(r, p, k);
      Operands(r, p, i);
      ghost var w0, d0, c0 := weight, done, code;
      var l1, w1 := Flatten(r.code[i].left, i);
      ghost var c1 := code;
      ghost var weight1, d1 := weight, done;
      var l2, w2 := Flatten(r.code[i].right, i);
      ValidFacts();
      leaves, w := l1 + l2, weight[p];
      JoinLeaves(r, r.code[k].op, l1, l2, r.code[i].left, r.code[i].right, p);
      KeptTrans(r, w0, d0, weight1, d1, weight, done, i, i);
      KeptWider(r, w0, d0, weight, done, i, k);
      StillUsable(r, weight1, d1, weight, done, i, l1);
      OnlyOperands(r, d0, d1, done, p, i);
      PrefixTrans(c0, c1, code);
    }

    lemma ValidFacts()
      requires Valid()
      ensures r.Valid() && |weight| >= |r.uses| && Weighed(r, weight, done)
      ensures WritesOnly(r, code, done, |weight|) && RootsRight(r, code, done) && DefinedBeforeUse(r, code)
      ensures AllBuilt(r, code, done)
      ensures forall i :: 0 <= i < |r.code| ==>
                r.code[i].left < |r.uses| && r.code[i].right < |r.uses| && r.code[i].dst < |r.uses|
    {
    }

    lemma MakeValid()
      requires r.Valid() && Weighed(r, weight, done)
      requires WritesOnly(r, code, done, |weight|) && RootsRight(r, code, done) && DefinedBeforeUse(r, code)
      requires AllBuilt(r, code, done)
      ensures Valid()
    {
    }

    lemma SameLength(p: nat, w: int)
      requires p < |weight|
      ensures |weight[p := w]| == |weight|
    {
    }

    /** The place of the instruction that defines p, or the length if there is none. */
    method Definer(p: nat) returns (i: nat)
      requires r.Valid()
      ensures i <= |r.code| && (if r.Place(p) == 0 then i == |r.code| else i == r.Place(p) - 1)
    {
      hide Region.Valid;
      i := 0;
      while i < |r.code| && r.code[i].dst != p
        invariant 0 <= i <= |r.code| && forall j :: 0 <= j < i ==> r.code[j].dst != p
      {
        i := i + 1;
      }
      if i < |r.code| {
        r.PlaceOf(i);
      }
    }

    /** BalanceTree. */
    method Balance(root: nat, d: nat)
      requires Valid() && root < |r.uses| && d < |r.code| && r.Place(root) == d + 1 && r.IsRoot(root)
      modifies this
      ensures Valid() && Usable(r, weight, done, root)
      ensures Kept(r, old(weight), old(done), weight, done, d + 1)
      ensures old(code) <= code && OnlyNeeded(r, old(done), done, root)
      decreases r.Place(root), 0
    {
      hide *;
      ValidFacts();
      if weight[root] >= 0 {
        AlreadyDone(r, weight, done, root, d + 1);
        NoneNeeded(r, done, root);
        return;
      }
      Operands(r, root, d);
      ghost var w0, d0, c0 := weight, done, code;
      var op := r.code[d].op;
      var l1, v1 := Flatten(r.code[d].left, d);
      ghost var weight1, d1, c1 := weight, done, code;
      var l2, v2 := Flatten(r.code[d].right, d);
      ValidFacts();
      StillUsable(r, weight1, d1, weight, done, d, l1);
      KeptTrans(r, w0, d0, weight1, d1, weight, done, d, d);
      NotYetDone(r, w0, d0, weight, done, d, root);
      JoinLeaves(r, op, l1, l2, r.code[d].left, r.code[d].right, root);
      ghost var weight2, d2, c2 := weight, done, code;
      LeavesSome(r, op, l1, r.code[d].left);
      LeavesSome(r, op, l2, r.code[d].right);
      StartMerging(r, code, weight, done, op, l1 + l2, root);
      SameLength(root, v1 + v2);
      StartedMerging(r, code, weight, done, op, l1 + l2, root, v1 + v2);
      StartGrowing(r, weight, done, op, l1 + l2, root, v1 + v2);
      RootLeaves(r, root, d);
      weight := weight[root := v1 + v2];
      Merge(root, op, l1 + l2);
      Balanced(r, w0, d0, weight2, d2, weight, done, root, d);
      BuiltLast(r, c2, code[|c2|..], d2, root);
      PrefixSplit(c2, code);
      OnlyOperands(r, d0, d1, d2, root, d);
      OnlyRoot(r, d0, d2, root);
      PrefixTrans(c0, c1, c2);
      PrefixTrans(c0, c2, code);
      MakeValid();
    }

    /** The loop of BalanceTree: the two lightest items are combined into a new variable,
        the last two into the root. */
    method Merge(root: nat, op: Op, leaves: seq<nat>)
      requires r.Valid() && Merging(r, code, weight, done, op, leaves, root)
      requires Growing(AllWeights(r), weight, [], op, leaves, LeavesOf(leaves), leaves)
      modifies this
      ensures |weight| >= |old(weight)| >= |r.uses| && done == old(done) + {root} && root < |weight|
      ensures WritesOnly(r, code, done, |weight|) && RootsRight(r, code, done) && DefinedBeforeUse(r, code)
      ensures forall v: nat :: v < |r.uses| && v != root ==> weight[v] == old(weight)[v]
      ensures weight[root] == Sum(Weights(AllWeights(r), leaves))
      ensures old(code) <= code && Combines(AllWeights(r), code[|old(code)|..], op, leaves, root)
    {
      hide *;
      MergingFacts(r, code, weight, done, op, leaves, root);
      ghost var w, trees := AllWeights(r), LeavesOf(leaves);
      ghost var slice: seq<Ins> := [];
      var items: seq<nat> := leaves;
      while items != []
        invariant |old(weight)| <= |weight|
        invariant forall v: nat :: v < |r.uses| && v != root ==> weight[v] == old(weight)[v]
        invariant code == old(code) + slice
        invariant items != [] ==> Merging(r, code, weight, done, op, items, root) && done == old(done)
        invariant items != [] ==> Growing(w, weight, slice, op, items, trees, leaves)
        invariant items == [] ==> done == old(done) + {root} && root < |weight|
        invariant items == [] ==> weight[root] == Sum(Weights(w, leaves)) && Combines(w, slice, op, leaves, root)
        invariant items == [] ==>
                    WritesOnly(r, code, done, |weight|) && RootsRight(r, code, done) && DefinedBeforeUse(r, code)
        decreases |items|
      {
        MergingFacts(r, code, weight, done, op, items, root);
        GrowingFacts(w, weight, slice, op, items, trees, leaves);
        var i := Lightest(items);
        LightestIn(weight, items, i);
        var rest1 := Removed(items, i);
        RemovedIn(items, i);
        var j := Lightest(rest1);
        LightestIn(weight, rest1, j);
        var rest := Removed(rest1, j);
        var a, b := items[i], rest1[j];
        var w1 := weight[a] + weight[b];
        if rest == [] {
          MergeLast(r, code, weight, done, op, items, root, i, j);
          GrowLast(w, weight, slice, op, items, trees, leaves, i, j, root);
          code := code + [Ins(op, root, a, b)];
          slice := slice + [Ins(op, root, a, b)];
          weight := weight[root := w1];
          done := done + {root};
          items := [];
        } else {
          var n: nat := |weight|;
          MergeTwo(r, code, weight, done, op, items, root, i, j);
          GrowTwo(w, weight, slice, op, items, trees, leaves, i, j);
          code := code + [Ins(op, n, a, b)];
          slice := slice + [Ins(op, n, a, b)];
          weight := weight + [w1];
          items := rest + [n];
          trees := Round(w, trees);
        }
      }
    }

    /** List_Delete. */
    method Removed(items: seq<nat>, i: nat) returns (rest: seq<nat>)
      requires i < |items|
      ensures rest == Remove<nat>(items, i) && |rest| == |items| - 1
    {
      rest := items[..i] + items[i + 1..];
    }
  }

  lemma GrowingFacts(w: seq<nat>, weight: seq<int>, slice: seq<Ins>, op: Op, items: seq<nat>, trees: seq<Shape>,
                     leaves: seq<nat>)
    requires Growing(w, weight, slice, op, items, trees, leaves)
    ensures |trees| == |items|
  {
  }

  lemma LightestIn(weight: seq<int>, items: seq<nat>, i: nat)
    requires LightestAt(weight, items, i)
    ensures i < |items|
  {
  }

  lemma PrefixTrans(a: seq<Ins>, b: seq<Ins>, c: seq<Ins>)
    requires a <= b && b <= c
    ensures a <= c
  {
  }

  lemma PrefixSplit(a: seq<Ins>, b: seq<Ins>)
    requires a <= b
    ensures a + b[|a|..] == b
  {
  }

  /** The roots balanced meanwhile are needed for the operand. */
  ghost predicate OnlyNeeded(r: Region, d0: set<nat>, d1: set<nat>, p: nat) {
    r.Valid() && forall v :: v in d1 ==> v in d0 || r.Needs(p, v)
  }

  lemma NoneNeeded(r: Region, done: set<nat>, p: nat)
    requires r.Valid()
    ensures OnlyNeeded(r, done, done, p)
  {
  }

  lemma OnlyOperands(r: Region, d0: set<nat>, d1: set<nat>, d2: set<nat>, p: nat, i: nat)
    requires r.Valid() && r.Place(p) == i + 1
    requires OnlyNeeded(r, d0, d1, r.code[i].left) && OnlyNeeded(r, d1, d2, r.code[i].right)
    ensures OnlyNeeded(r, d0, d2, p)
  {
    hide Region.Valid, Region.Place;
  }

  lemma OnlyRoot(r: Region, d0: set<nat>, d1: set<nat>, p: nat)
    requires OnlyNeeded(r, d0, d1, p)
    ensures OnlyNeeded(r, d0, d1 + {p}, p)
  {
  }

  /** The ends of an operand of the instruction k. */
  lemma EndsAt(r: Region, p: nat, k: nat)
    requires r.Valid() && p < |r.uses| && k < |r.code| && (r.code[k].left == p || r.code[k].right == p)
    ensures r.Place(p) == 0 || r.IsRoot(p) ==> r.Ends(p) == [p]
    ensures r.Place(p) > 0 && !r.IsRoot(p) ==>
              r.Ends(p) == r.Ends(r.code[r.Place(p) - 1].left) + r.Ends(r.code[r.Place(p) - 1].right)
  {
    if r.Place(p) > 0 {
      RootExactly(r, p);
      assert InRegion(k) in r.uses[p];
    }
  }

  lemma RootLeaves(r: Region, root: nat, d: nat)
    requires r.Valid() && root < |r.uses| && d < |r.code| && r.Place(root) == d + 1
    ensures r.TreeEnds(root) == r.Ends(r.code[d].left) + r.Ends(r.code[d].right)
    ensures Sum(Weights(AllWeights(r), r.TreeEnds(root))) == r.Weight(root)
  {
    hide Region.Ends;
    EndsWeigh(r, r.code[d].left);
    EndsWeigh(r, r.code[d].right);
    BothWeigh(AllWeights(r), r.Ends(r.code[d].left), r.Ends(r.code[d].right));
  }

  /** The state of the merging loop. */
  ghost predicate Merging(r: Region, code: seq<Ins>, weight: seq<int>, done: set<nat>, op: Op, items: seq<nat>,
                          root: nat)
    requires r.Valid()
  {
    && |items| >= 2 && Worth(r, code, op, items, root) && root !in done && root < |r.uses| <= |weight| && r.IsRoot(root)
    && WritesOnly(r, code, done, |weight|) && RootsRight(r, code, done) && DefinedBeforeUse(r, code)
    && forall k :: 0 <= k < |items| ==>
           items[k] < |weight| && items[k] != root && weight[items[k]] >= 0 && Readable(r, code, items[k])
  }

  lemma MergingFacts(r: Region, code: seq<Ins>, weight: seq<int>, done: set<nat>, op: Op, items: seq<nat>, root: nat)
    requires r.Valid() && Merging(r, code, weight, done, op, items, root)
    ensures |items| >= 2 && root < |r.uses| <= |weight| && forall k :: 0 <= k < |items| ==> items[k] < |weight|
  {
  }

  lemma RemovedIn(items: seq<nat>, i: nat)
    requires i < |items|
    ensures forall k :: 0 <= k < |Remove<nat>(items, i)| ==> Remove<nat>(items, i)[k] in items
    ensures forall x :: x in items ==> exists k :: 0 <= k < |items| && items[k] == x
  {
  }

  lemma ItemsKept(items: seq<nat>, i: nat, j: nat)
    requires i < |items| && j < |items| - 1
    ensures Remove<nat>(items, i)[j] in items
    ensures forall k :: 0 <= k < |items| - 2 ==> Remove<nat>(Remove<nat>(items, i), j)[k] in items
  {
    RemovedIn(items, i);
    RemovedIn(Remove<nat>(items, i), j);
  }

  lemma ReadableMore(r: Region, code: seq<Ins>, ins: Ins, v: nat)
    requires Readable(r, code, v)
    ensures Readable(r, code + [ins], v)
  {
    if Emits(code, v) {
      EmitsMore(code, [ins], v);
    }
  }

  lemma WritesMore(r: Region, code: seq<Ins>, done: set<nat>, vars: nat, ins: Ins, done': set<nat>, vars': nat)
    requires r.Valid() && WritesOnly(r, code, done, vars) && vars <= vars' && ins.dst < vars'
    requires (ins.dst >= |r.uses| && done' == done)
               || (ins.dst < |r.uses| && r.IsRoot(ins.dst) && done' == done + {ins.dst})
    ensures WritesOnly(r, code + [ins], done', vars')
  {
    hide Region.Valid, Region.IsRoot;
    EmitsLast(code, ins);
    forall v | v in done ensures Emits(code + [ins], v) {
      EmitsMore(code, [ins], v);
    }
  }

  lemma MergeTwo(r: Region, code: seq<Ins>, weight: seq<int>, done: set<nat>, op: Op, items: seq<nat>, root: nat,
                 i: nat, j: nat)
    requires r.Valid() && Merging(r, code, weight, done, op, items, root) && i < |items| && j < |items| - 1
    requires |items| > 2
    ensures var a, b, n := items[i], Remove<nat>(items, i)[j], |weight|;
            a < |weight| && b < |weight|
            && Merging(r, code + [Ins(op, n, a, b)], weight + [weight[a] + weight[b]], done, op,
                 Remove<nat>(Remove<nat>(items, i), j) + [n], root)
  {
    hide Region.Valid, Region.IsRoot, Worth, WritesOnly, RootsRight, DefinedBeforeUse, Readable;
    var a, b, n := items[i], Remove<nat>(items, i)[j], |weight|;
    var ins := Ins(op, n, a, b);
    ItemsKept(items, i, j);
    assert b in items;
    NotDone(r, code, done, |weight|, n);
    MergeWorth(r, code, op, items, i, j, root, n);
    DefinedMore(r, code, ins);
    WritesMore(r, code, done, |weight|, ins, done, n + 1);
    RootsStayRight(r, code, done, ins);
    EmitsLast(code, ins);
    NewReadable(r, code + [ins], n);
    var rest := Remove<nat>(Remove<nat>(items, i), j);
    forall k | 0 <= k < |rest|
      ensures Readable(r, code + [ins], rest[k]) && rest[k] < |weight| && rest[k] != root && weight[rest[k]] >= 0
    {
      assert rest[k] in items;
      ReadableMore(r, code, ins, rest[k]);
    }
  }

  lemma NewReadable(r: Region, code: seq<Ins>, n: nat)
    requires Emits(code, n)
    ensures Readable(r, code, n)
  {
  }

  lemma NotDone(r: Region, code: seq<Ins>, done: set<nat>, vars: nat, n: nat)
    requires r.Valid() && WritesOnly(r, code, done, vars) && n >= |r.uses|
    ensures n !in done
  {
  }

  lemma MergeLast(r: Region, code: seq<Ins>, weight: seq<int>, done: set<nat>, op: Op, items: seq<nat>, root: nat,
                  i: nat, j: nat)
    requires r.Valid() && Merging(r, code, weight, done, op, items, root) && i < |items| && j < |items| - 1
    requires |items| == 2
    ensures var a, b := items[i], Remove<nat>(items, i)[j];
            var code' := code + [Ins(op, root, a, b)];
            && a < |weight| && b < |weight| && weight[a] + weight[b] >= 0
            && WritesOnly(r, code', done + {root}, |weight|) && RootsRight(r, code', done + {root})
            && DefinedBeforeUse(r, code')
  {
    hide Region.Valid, Region.IsRoot, Worth, WritesOnly, DefinedBeforeUse, Readable;
    var a, b := items[i], Remove<nat>(items, i)[0];
    var ins := Ins(op, root, a, b);
    RemovedIn(items, i);
    assert b in items;
    LastWorth(r, code, op, items, i, root);
    DefinedMore(r, code, ins);
    WritesMore(r, code, done, |weight|, ins, done + {root}, |weight|);
    RootsStayRight(r, code, done, ins);
  }

  /** The leaves of a root are ready for merging. */
  lemma StartMerging(r: Region, code: seq<Ins>, weight: seq<int>, done: set<nat>, op: Op, items: seq<nat>, root: nat)
    requires r.Valid() && |items| >= 2 && LeavesWorth(r, op, items, root) && root !in done
    requires root < |r.uses| <= |weight| && r.IsRoot(root)
    requires WritesOnly(r, code, done, |weight|) && RootsRight(r, code, done) && DefinedBeforeUse(r, code)
    requires forall k :: 0 <= k < |items| ==> Usable(r, weight, done, items[k])
    ensures Merging(r, code, weight, done, op, items, root)
  {
    hide Region.Valid, Fold, DefinedBeforeUse, Region.Place;
    forall env: Env ensures Fold(op, Looks(Run(code, env), items)) == r.Value(env, root) {
      forall k | 0 <= k < |items| ensures Look(Run(code, env), items[k]) == r.Value(env, items[k]) {
        LeafValue(r, code, done, |weight|, items[k], env);
      }
      assert Looks(Run(code, env), items) == Values(r, env, items);
    }
  }

  /** The weight that the root gets for now does not matter. */
  lemma StartedMerging(r: Region, code: seq<Ins>, weight: seq<int>, done: set<nat>, op: Op, items: seq<nat>, root: nat,
                       w: int)
    requires r.Valid() && Merging(r, code, weight, done, op, items, root) && root < |weight|
    ensures Merging(r, code, weight[root := w], done, op, items, root)
  {
    hide Region.Valid, Region.IsRoot, Worth, WritesOnly, RootsRight, DefinedBeforeUse, Readable;
  }

  lemma AlreadyDone(r: Region, weight: seq<int>, done: set<nat>, root: nat, k: nat)
    requires r.Valid() && Weighed(r, weight, done) && root < |r.uses| && r.IsRoot(root) && weight[root] >= 0
    ensures Usable(r, weight, done, root) && Kept(r, weight, done, weight, done, k)
  {
  }

  lemma NotYetDone(r: Region, w0: seq<int>, d0: set<nat>, weight: seq<int>, done: set<nat>, d: nat, root: nat)
    requires r.Valid() && Weighed(r, w0, d0) && Kept(r, w0, d0, weight, done, d) && root < |r.uses| && r.IsRoot(root)
    requires r.Place(root) == d + 1
    requires w0[root] < 0
    ensures root !in done && root < |r.uses| <= |weight|
  {
  }

  /** After the merging the root is balanced and nothing else has changed. */
  lemma Balanced(r: Region, w0: seq<int>, d0: set<nat>, w2: seq<int>, d2: set<nat>, weight: seq<int>, done: set<nat>,
                 root: nat, d: nat)
    requires r.Valid() && Kept(r, w0, d0, w2, d2, d) && Weighed(r, w2, d2) && root < |r.uses| && r.Place(root) == d + 1
    requires |weight| >= |w2| && done == d2 + {root} && weight[root] == r.Weight(root)
    requires forall v: nat :: v < |r.uses| && v != root ==> weight[v] == w2[v]
    ensures Weighed(r, weight, done) && Usable(r, weight, done, root) && Kept(r, w0, d0, weight, done, d + 1)
  {
    hide Region.Valid, Region.IsRoot;
  }

  lemma RootAt(r: Region, p: nat, i: nat)
    requires r.Valid() && r.Place(p) == i + 1
    ensures i < |r.code| && r.code[i].dst < |r.uses| && (r.IsRoot(p) <==> r.Root(i))
  {
  }

  lemma UsableFacts(r: Region, weight: seq<int>, done: set<nat>, p: nat)
    requires Usable(r, weight, done, p)
    ensures p < |weight| && weight[p] >= 0
  {
  }

  lemma ConstIsOutside(r: Region, p: nat)
    requires r.Valid() && p in r.consts
    ensures r.Place(p) == 0
  {
  }

  lemma BeforeUse(r: Region, p: nat, k: nat)
    requires r.Valid() && k < |r.code| && (r.code[k].left == p || r.code[k].right == p)
    ensures r.Place(p) <= k
  {
  }

  lemma Operands(r: Region, p: nat, i: nat)
    requires r.Valid() && r.Place(p) == i + 1
    ensures i < |r.code| && r.code[i] == Ins(r.code[i].op, p, r.code[i].left, r.code[i].right)
    ensures r.Place(r.code[i].left) < r.Place(p) && r.Place(r.code[i].right) < r.Place(p)
    ensures r.code[i].left < |r.uses| && r.code[i].right < |r.uses|
  {
    r.OperandsBefore(p);
  }

  lemma StillUsable(r: Region, w0: seq<int>, d0: set<nat>, w1: seq<int>, d1: set<nat>, k: nat, items: seq<nat>)
    requires Kept(r, w0, d0, w1, d1, k) && forall i :: 0 <= i < |items| ==> Usable(r, w0, d0, items[i])
    ensures forall i :: 0 <= i < |items| ==> Usable(r, w1, d1, items[i])
  {
    hide Usable, Region.Place;
  }

  /** The whole pass over a region: roots found, additions balanced before
      multiplications, and the new code in place of the old. */
  method BalanceRegion(r: Region) returns (code: seq<Ins>)
    requires r.Valid()
    ensures forall env: Env, v: nat :: v < |r.uses| && r.IsRoot(v) ==>
              Look(Run(code, env), v) == Look(Run(r.code, env), v)
    ensures forall env: Env, v: nat, id: nat :: v < |r.uses| && Elsewhere(id) in r.uses[v] ==>
              Look(Run(code, env), v) == Look(Run(r.code, env), v)
    ensures DefinedBeforeUse(r, code)
    ensures forall v: nat :: v < |r.uses| && r.IsRoot(v) ==> Built(r, code, v)
    ensures exists n: nat :: SumsFirst(r, code, n)
  {
    hide *;
    var b := new Balancer(r);
    NoneListed(r);
    ghost var first: seq<Ins> := [];
    var pass := 0;
    while pass < 2
      invariant 0 <= pass <= 2 && b.Valid() && b.r == r
      invariant forall i: nat :: i < |r.code| && Listed(r, i, pass) ==> r.code[i].dst in b.done
      invariant if pass == 0 then forall v: nat :: v in b.done ==> UnderSum(r, v)
                else first <= b.code && SumsFirst(r, first, |first|)
    {
      var i := 0;
      while i < |r.code|
        invariant 0 <= i <= |r.code| && b.Valid() && b.r == r
        invariant forall j: nat :: j < |r.code| && (Listed(r, j, pass) || (j < i && Listed(r, j, pass + 1))) ==>
                    r.code[j].dst in b.done
        invariant if pass == 0 then forall v: nat :: v in b.done ==> UnderSum(r, v)
                  else first <= b.code && SumsFirst(r, first, |first|)
      {
        b.ValidFacts();
        ListedMore(r, i, pass);
        if r.Root(i) && r.code[i].op == (if pass == 0 then Plus else Times) {
          r.PlaceOf(i);
          RootAt(r, r.code[i].dst, i);
          ghost var w0, d0, c0 := b.weight, b.done, b.code;
          b.Balance(r.code[i].dst, i);
          NowDone(r, w0, d0, b.weight, b.done, r.code[i].dst, i + 1);
          StillUnder(r, d0, b.done, r.code[i].dst, pass);
          if pass > 0 {
            PrefixTrans(first, c0, b.code);
          }
        }
        i := i + 1;
      }
      b.ValidFacts();
      if pass == 0 {
        first := b.code;
        SumsListed(r, b.code, b.done, |b.weight|);
        SamePrefix(first);
      }
      pass := pass + 1;
    }
    code := b.code;
    b.ValidFacts();
    AllRoots(r, code, b.done);
    Elsewheres(r, code, b.done, |b.weight|);
    SumsStayFirst(r, first, code);
  }

  /** A root that adds. */
  ghost predicate SumRoot(r: Region, v: nat)
    requires r.Valid()
  {
    r.IsRoot(v) && r.code[r.Place(v) - 1].op.Plus?
  }

  ghost predicate UnderSum(r: Region, v: nat)
    requires r.Valid()
  {
    exists s: nat :: SumRoot(r, s) && r.Needs(s, v)
  }

  /** Additions come before multiplications: the first n instructions compute all sums, and of
      the products just those that a sum needs. */
  ghost predicate SumsFirst(r: Region, code: seq<Ins>, n: nat) {
    && r.Valid() && n <= |code|
    && (forall v: nat :: SumRoot(r, v) ==> Emits(code[..n], v))
    && (forall v: nat :: v < |r.uses| && Emits(code[..n], v) ==> UnderSum(r, v))
  }

  lemma SamePrefix(code: seq<Ins>)
    ensures code <= code
  {
  }

  lemma StillUnder(r: Region, d0: set<nat>, d1: set<nat>, v: nat, pass: nat)
    requires r.Valid() && OnlyNeeded(r, d0, d1, v) && r.IsRoot(v)
    requires r.code[r.Place(v) - 1].op == (if pass == 0 then Plus else Times)
    requires pass == 0 ==> forall u: nat :: u in d0 ==> UnderSum(r, u)
    ensures pass == 0 ==> forall u: nat :: u in d1 ==> UnderSum(r, u)
  {
    hide Region.Valid, Region.IsRoot, Region.Needs;
  }

  lemma SumsListed(r: Region, code: seq<Ins>, done: set<nat>, vars: nat)
    requires r.Valid() && WritesOnly(r, code, done, vars)
    requires forall i: nat :: i < |r.code| && Listed(r, i, 1) ==> r.code[i].dst in done
    requires forall v: nat :: v in done ==> UnderSum(r, v)
    ensures SumsFirst(r, code, |code|)
  {
    hide UnderSum;
    assert code[..|code|] == code;
    forall v: nat | SumRoot(r, v) ensures Emits(code, v) {
      assert Listed(r, r.Place(v) - 1, 1);
    }
  }

  lemma SumsStayFirst(r: Region, first: seq<Ins>, code: seq<Ins>)
    requires SumsFirst(r, first, |first|) && first <= code
    ensures SumsFirst(r, code, |first|)
  {
    hide SumRoot, UnderSum;
    assert code[..|first|] == first == first[..|first|];
  }

  /** Roots of the first n priorities. */
  ghost predicate Listed(r: Region, i: nat, n: nat) {
    r.Valid() && i < |r.code| && r.Root(i) && (n > 1 || (n == 1 && r.code[i].op.Plus?))
  }

  lemma NoneListed(r: Region)
    ensures forall i: nat :: i < |r.code| ==> !Listed(r, i, 0)
  {
  }

  lemma NowDone(r: Region, w0: seq<int>, d0: set<nat>, weight: seq<int>, done: set<nat>, v: nat, k: nat)
    requires Kept(r, w0, d0, weight, done, k) && Usable(r, weight, done, v) && r.Place(v) > 0
    ensures d0 <= done && v in done
  {
  }

  lemma ListedMore(r: Region, i: nat, pass: nat)
    requires r.Valid() && i < |r.code| && pass < 2
    ensures Listed(r, i, pass + 1) ==>
              Listed(r, i, pass) || (r.Root(i) && r.code[i].op == (if pass == 0 then Plus else Times))
    ensures !Listed(r, i, 0)
  {
  }

  lemma AllRoots(r: Region, code: seq<Ins>, done: set<nat>)
    requires r.Valid() && RootsRight(r, code, done) && AllBuilt(r, code, done)
    requires forall i: nat :: i < |r.code| && Listed(r, i, 2) ==> r.code[i].dst in done
    ensures forall env: Env, v: nat :: v < |r.uses| && r.IsRoot(v) ==>
              Look(Run(code, env), v) == Look(Run(r.code, env), v)
    ensures forall v: nat :: v < |r.uses| && r.IsRoot(v) ==> Built(r, code, v)
  {
    hide Region.Value, Run, Built;
    forall v: nat | v < |r.uses| && r.IsRoot(v) ensures Built(r, code, v) {
      assert Listed(r, r.Place(v) - 1, 2);
    }
    forall env: Env, v: nat | v < |r.uses| && r.IsRoot(v) ensures Look(Run(code, env), v) == Look(Run(r.code, env), v) {
      assert Listed(r, r.Place(v) - 1, 2);
      r.RunIsValue(env, |r.code|, v);
      assert r.code[..|r.code|] == r.code;
    }
  }

  /** A value used outside the region is a root's, or it comes from before the region. */
  lemma Elsewheres(r: Region, code: seq<Ins>, done: set<nat>, vars: nat)
    requires r.Valid() && WritesOnly(r, code, done, vars) && RootsRight(r, code, done)
    requires forall env: Env, v: nat :: v < |r.uses| && r.IsRoot(v) ==>
               Look(Run(code, env), v) == Look(Run(r.code, env), v)
    ensures forall env: Env, v: nat, id: nat :: v < |r.uses| && Elsewhere(id) in r.uses[v] ==>
              Look(Run(code, env), v) == Look(Run(r.code, env), v)
  {
    hide Region.Value, Run, Region.Valid, Region.IsRoot, WritesOnly, RootsRight;
    forall env: Env, v: nat, id: nat | v < |r.uses| && Elsewhere(id) in r.uses[v]
      ensures Look(Run(code, env), v) == Look(Run(r.code, env), v)
    {
      if r.Place(v) == 0 {
        LeafValue(r, code, done, vars, v, env);
        r.RunIsValue(env, |r.code|, v);
        assert r.code[..|r.code|] == r.code;
      } else {
        UsedElsewhereIsRoot(r, v, id);
      }
    }
  }
}
