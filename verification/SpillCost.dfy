/** Spill costs and the choice of a node to spill (backend/ra-colorize.c). */
module SpillCost {
  import opened MpInt

  /** A block of machine code: its loop depth and, for each instruction, the graph nodes
      of its register operands. */
  datatype LirBlock = LirBlock(depth: nat, ops: seq<seq<nat>>)

  const NEVER: int := 0x7FFF_FFFF

  function Occurrences(op: seq<nat>, v: nat): nat {
    if op == [] then 0
    else Occurrences(op[..|op| - 1], v) + (if op[|op| - 1] == v then 1 else 0)
  }

  function InOps(ops: seq<seq<nat>>, v: nat): nat {
    if ops == [] then 0 else Occurrences(ops[0], v) + InOps(ops[1..], v)
  }

  /** Ten to the loop depth for every occurrence. */
  function Cost(blocks: seq<LirBlock>, v: nat): nat {
    if blocks == [] then 0
    else Power(10, blocks[0].depth) * InOps(blocks[0].ops, v) + Cost(blocks[1..], v)
  }

  ghost predicate Holds(costs: seq<Mp>, nums: seq<nat>)
    reads set c | c in costs, set c | c in costs :: c.dp
  {
    |costs| == |nums| && forall v :: 0 <= v < |costs| ==> costs[v].Valid() && costs[v].Num() == nums[v]
  }

  /** Ten to the power of the depth, by repeated multiplication. */
  method Frequency(depth: nat, ten: Mp) returns (f: Mp)
    requires ten.Valid() && ten.Num() == 10
    ensures fresh(f) && fresh(f.dp) && f.Valid() && f.Num() == Power(10, depth)
  {
    f := new Mp(1);
    FitsOneDigit(1);
    SetU32(f, 1);
    var i: nat := depth;
    while i > 0
      invariant i <= depth && fresh(f) && fresh(f.dp) && f.Valid() && ten.Valid() && ten.Num() == 10
      invariant f.Num() == Power(10, depth - i)
    {
      f := Mul(f, ten);
      i := i - 1;
    }
  }

  lemma FitsOneDigit(n: nat)
    requires n < BASE
    ensures n < Power(BASE, 1) && n < WORD
  {
    assert Power(BASE, 1) == BASE * Power(BASE, 0);
  }

  /** What an occurrence list adds to each node. */
  function Raised(nums: seq<nat>, f: nat, op: seq<nat>): seq<nat> {
    seq(|nums|, v requires 0 <= v < |nums| => nums[v] + f * Occurrences(op, v))
  }

  function RaisedByOps(nums: seq<nat>, f: nat, ops: seq<seq<nat>>): seq<nat> {
    seq(|nums|, v requires 0 <= v < |nums| => nums[v] + f * InOps(ops, v))
  }

  lemma RaiseOne(nums: seq<nat>, f: nat, op: seq<nat>, v: nat)
    requires v < |nums|
    ensures Raised(nums, f, op + [v]) == Raised(nums, f, op)[v := Raised(nums, f, op)[v] + f]
  {
    assert (op + [v])[..|op|] == op;
    forall u: nat | u < |nums|
      ensures nums[u] + f * Occurrences(op + [v], u) == nums[u] + f * Occurrences(op, u) + (if u == v then f else 0)
    {
      Distribute(Occurrences(op, u), if u == v then 1 else 0, f);
    }
  }

  /** The operands of one instruction. */
  method AddOp(costs: seq<Mp>, ghost nums: seq<nat>, f: Mp, op: seq<nat>) returns (r: seq<Mp>)
    requires Holds(costs, nums) && f.Valid() && forall k :: 0 <= k < |op| ==> op[k] < |costs|
    ensures Holds(r, Raised(nums, f.Num(), op)) && forall c :: c in r ==> c in costs || (fresh(c) && fresh(c.dp))
  {
    hide Raised, Occurrences, Value;
    r := costs;
    ghost var n := f.Num();
    RaiseNone(nums, n);
    assert op[..0] == [];
    var i := 0;
    while i < |op|
      invariant 0 <= i <= |op| && Holds(r, Raised(nums, n, op[..i])) && f.Valid() && f.Num() == n
      invariant |r| == |costs| && forall c :: c in r ==> c in costs || (fresh(c) && fresh(c.dp))
    {
      var v := op[i];
      RaisedLength(nums, n, op[..i]);
      RaiseOne(nums, n, op[..i], v);
      assert op[..i + 1] == op[..i] + [v];
      var c := Add(r[v], f);
      r := r[v := c];
      i := i + 1;
    }
    assert op[..i] == op;
  }

  lemma RaiseNone(nums: seq<nat>, f: nat)
    ensures Raised(nums, f, []) == nums && RaisedByOps(nums, f, []) == nums
  {
  }

  lemma RaisedLength(nums: seq<nat>, f: nat, op: seq<nat>)
    ensures |Raised(nums, f, op)| == |nums|
  {
  }

  lemma InOpsCons(op: seq<nat>, ops: seq<seq<nat>>, v: nat)
    ensures InOps([op] + ops, v) == Occurrences(op, v) + InOps(ops, v)
  {
    assert ([op] + ops)[1..] == ops;
  }

  lemma RaiseOps(nums: seq<nat>, f: nat, op: seq<nat>, ops: seq<seq<nat>>)
    ensures Raised(RaisedByOps(nums, f, ops), f, op) == RaisedByOps(nums, f, [op] + ops)
    ensures |RaisedByOps(nums, f, ops)| == |nums|
  {
    hide Occurrences, InOps;
    forall v: nat | v < |nums|
      ensures nums[v] + f * InOps(ops, v) + f * Occurrences(op, v) == nums[v] + f * InOps([op] + ops, v)
    {
      InOpsCons(op, ops, v);
      Distribute(Occurrences(op, v), InOps(ops, v), f);
    }
  }

  /** The instructions of a block, from the last to the first. */
  method AddBlock(costs: seq<Mp>, ghost nums: seq<nat>, b: LirBlock, ten: Mp) returns (r: seq<Mp>)
    requires Holds(costs, nums) && ten.Valid() && ten.Num() == 10
    requires forall i, k :: 0 <= i < |b.ops| && 0 <= k < |b.ops[i]| ==> b.ops[i][k] < |costs|
    ensures Holds(r, RaisedByOps(nums, Power(10, b.depth), b.ops))
    ensures forall c :: c in r ==> c in costs || (fresh(c) && fresh(c.dp))
  {
    hide Raised, RaisedByOps, Value;
    r := costs;
    var f := Frequency(b.depth, ten);
    ghost var n := f.Num();
    RaiseNone(nums, n);
    var i := |b.ops|;
    assert b.ops[i..] == [];
    while i > 0
      invariant 0 <= i <= |b.ops| && Holds(r, RaisedByOps(nums, n, b.ops[i..])) && f.Valid() && f.Num() == n
      invariant |r| == |costs| && forall c :: c in r ==> c in costs || (fresh(c) && fresh(c.dp))
    {
      i := i - 1;
      assert b.ops[i..] == [b.ops[i]] + b.ops[i + 1..];
      RaiseOps(nums, n, b.ops[i], b.ops[i + 1..]);
      RaisedLength(RaisedByOps(nums, n, b.ops[i + 1..]), n, b.ops[i]);
      r := AddOp(r, RaisedByOps(nums, n, b.ops[i + 1..]), f, b.ops[i]);
    }
    assert b.ops[0..] == b.ops;
  }

  function Costs(blocks: seq<LirBlock>, n: nat): seq<nat> {
    seq(n, v requires 0 <= v < n => Cost(blocks, v))
  }

  lemma CostsStep(b: LirBlock, blocks: seq<LirBlock>, n: nat)
    ensures RaisedByOps(Costs(blocks, n), Power(10, b.depth), b.ops) == Costs([b] + blocks, n)
  {
    assert ([b] + blocks)[1..] == blocks;
  }

  /** estimate_spill_costs: exactly the sum over all occurrences of ten to the loop depth. */
  method EstimateSpillCosts(blocks: seq<LirBlock>, n: nat) returns (costs: seq<Mp>)
    requires forall j, i, k :: 0 <= j < |blocks| && 0 <= i < |blocks[j].ops| && 0 <= k < |blocks[j].ops[i]| ==>
               blocks[j].ops[i][k] < n
    ensures |costs| == n && forall v :: 0 <= v < n ==> costs[v].Valid() && costs[v].Num() == Cost(blocks, v)
  {
    hide RaisedByOps, Value;
    var zero := new Mp(1);
    costs := seq(n, v => zero);
    var ten := new Mp(1);
    FitsOneDigit(10);
    SetU32(ten, 10);
    var j := |blocks|;
    assert blocks[j..] == [];
    while j > 0
      invariant 0 <= j <= |blocks| && Holds(costs, Costs(blocks[j..], n)) && ten.Valid() && ten.Num() == 10
      invariant |costs| == n && forall c :: c in costs ==> fresh(c) && fresh(c.dp)
    {
      j := j - 1;
      assert blocks[j..] == [blocks[j]] + blocks[j + 1..];
      CostsStep(blocks[j], blocks[j + 1..], n);
      costs := AddBlock(costs, Costs(blocks[j + 1..], n), blocks[j], ten);
    }
    assert blocks[0..] == blocks;
  }

  predicate Spillable(orig: seq<int>, i: nat) {
    i < |orig| && orig[i] != NEVER
  }

  /** a is cheaper than b, or as cheap and earlier. */
  ghost predicate Preferred(a: Mp, b: Mp, earlier: bool)
    reads a, a.dp, b, b.dp
  {
    a.Valid() && b.Valid() && (a.Num() < b.Num() || (a.Num() == b.Num() && earlier))
  }

  /** select_spill: the first of the cheapest candidates that may be spilled; the first
      node of the list if none may. */
  method SelectSpill(spillList: set<nat>, costs: seq<Mp>, orig: seq<int>) returns (selected: nat)
    requires spillList != {} && |costs| == |orig| && forall i :: i in spillList ==> i < |costs|
    requires forall i :: 0 <= i < |costs| ==> costs[i].Valid()
    ensures selected in spillList && selected < |costs|
    ensures (exists i :: i in spillList && Spillable(orig, i)) ==>
              && Spillable(orig, selected)
              && forall i :: i in spillList && Spillable(orig, i) ==>
                     Preferred(costs[selected], costs[i], selected <= i)
    ensures !(exists i :: i in spillList && Spillable(orig, i)) ==> forall i :: i in spillList ==> selected <= i
  {
    hide Value;
    selected := FirstOf(spillList);
    ghost var first := selected;
    var i := 0;
    var found := false;
    while i < |costs| && !found
      invariant 0 <= i <= |costs| && selected in spillList
      invariant !found ==> selected == first && forall k: nat :: k < i && k in spillList ==> !Spillable(orig, k)
      invariant found ==> Spillable(orig, selected) && forall k: nat :: k < selected && k in spillList ==>
                  !Spillable(orig, k)
      decreases |costs| - i, if found then 0 else 1
    {
      if i in spillList && orig[i] != NEVER {
        selected, found := i, true;
      }
      i := i + 1;
    }
    ghost var start := selected;
    i := 0;
    while i < |costs|
      invariant 0 <= i <= |costs| && selected in spillList && selected < |costs|
      invariant found ==>
                  Spillable(orig, selected) && forall k: nat :: k < i && k in spillList && Spillable(orig, k) ==>
                            costs[selected].Num() < costs[k].Num()
                              || (costs[selected].Num() == costs[k].Num() && selected <= k)
      invariant found ==> (selected == start || selected < i) && forall k: nat :: k < start && k in spillList ==>
                  !Spillable(orig, k)
      invariant !found ==> selected == first && forall k :: k in spillList ==> !Spillable(orig, k)
    {
      if i in spillList && orig[i] != NEVER {
        var c := Cmp(costs[i], costs[selected]);
        if c < 0 {
          selected := i;
        }
      }
      i := i + 1;
    }
  }

  method FirstOf(s: set<nat>) returns (c: nat)
    requires s != {}
    ensures c in s && forall d :: d in s ==> c <= d
  {
    ghost var some :| some in s;
    c := 0;
    while c !in s
      invariant c <= some && forall d :: d in s ==> c <= d
      decreases some - c
    {
      c := c + 1;
    }
  }
}
