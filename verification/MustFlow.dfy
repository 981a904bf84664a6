/** The "must" data-flow problems that lazy code motion solves with a worklist:
    availability over blocks, anticipability over blocks, and delayability over
    edges. All three start from the full set and shrink, so what the worklist
    leaves is the greatest solution. The greatest solution is described here
    without any iteration: a bit is lost at a node exactly when some finite chain
    of nodes refutes it. */
module MustFlow {
  type Bits = set<nat>

  datatype Problem = Problem(
    ones: Bits,
    active: set<nat>,          // the nodes the worklist visits
    srcs: seq<seq<nat>>,       // the nodes a node's incoming value is the meet of
    boundary: seq<bool>,       // nodes whose incoming value is empty
    gen: seq<Bits>,
    pass: seq<Bits>)
  {
    ghost predicate Valid() {
      && |boundary| == |gen| == |pass| == |srcs|
      && (forall n :: n in active ==> n < |srcs|)
      && (forall n, k :: n in active && !boundary[n] && 0 <= k < |srcs[n]| ==> srcs[n][k] in active)
      && (forall n :: n in active ==> gen[n] <= ones)
    }

    /** The value that comes in from the sources of n. */
    function Meet(vals: seq<Bits>, n: nat): Bits
      requires Valid() && n in active && |vals| == |srcs|
    {
      if boundary[n] then {}
      else set x | x in ones && forall k :: 0 <= k < |srcs[n]| ==> x in vals[srcs[n][k]]
    }

    function Transfer(vals: seq<Bits>, n: nat): Bits
      requires Valid() && n in active && |vals| == |srcs|
    {
      gen[n] + Meet(vals, n) * pass[n]
    }

    ghost predicate Fixpoint(vals: seq<Bits>) {
      Valid() && |vals| == |srcs| && forall n :: n in active ==> vals[n] == Transfer(vals, n)
    }

    /** No node of the chain generates x, each but the last passes x on from the
        next, and the last one has nothing to pass. */
    ghost predicate Refutes(chain: seq<nat>, x: nat)
      requires Valid()
    {
      && chain != []
      && chain[0] in active && x !in gen[chain[0]]
      && if |chain| == 1 then boundary[chain[0]] || x !in pass[chain[0]]
         else !boundary[chain[0]] && x in pass[chain[0]] && chain[1] in srcs[chain[0]] && Refutes(chain[1..], x)
    }

    ghost predicate Refuted(n: nat, x: nat)
      requires Valid()
    {
      exists chain :: Refutes(chain, x) && chain[0] == n
    }

    /** Bits that no chain refutes are still there. */
    ghost predicate Keeps(vals: seq<Bits>)
      requires Valid() && |vals| == |srcs|
    {
      forall n, x :: n in active && x in ones && x !in vals[n] ==> Refuted(n, x)
    }

    /** The greatest solution, pointwise. */
    ghost predicate Greatest(vals: seq<Bits>) {
      && Valid() && |vals| == |srcs|
      && forall n, x :: n in active && x in ones ==> (x in vals[n] <==> !Refuted(n, x))
    }

    /** What the worklist keeps: values only shrink towards the solution, and a
        node that is not pending already satisfies its equation. */
    ghost predicate Inv(vals: seq<Bits>, pending: set<nat>) {
      && Valid() && |vals| == |srcs|
      && (forall n :: n in active ==> Transfer(vals, n) <= vals[n] <= ones)
      && (forall n :: n in active && n !in pending ==> vals[n] == Transfer(vals, n))
      && Keeps(vals)
    }

    /** The optimistic start: everything is full, except boundary nodes already set to their value. */
    lemma Start(vals: seq<Bits>, pending: set<nat>)
      requires Valid() && |vals| == |srcs|
      requires forall n :: n in active ==> vals[n] == ones || (boundary[n] && vals[n] == gen[n])
      requires forall n :: n in active && n !in pending ==> boundary[n] && vals[n] == gen[n]
      ensures Inv(vals, pending)
    {
      forall n, x | n in active && x in ones && x !in vals[n] ensures Refuted(n, x) {
        assert Refutes([n], x);
      }
    }

    /** The nodes of `touched` are recomputed from the old values at once. */
    ghost predicate Recomputed(vals: seq<Bits>, touched: set<nat>, vals': seq<Bits>) {
      && Valid() && |vals| == |srcs| == |vals'| && touched <= active
      && forall n :: n in active ==> vals'[n] == if n in touched then Transfer(vals, n) else vals[n]
    }

    lemma TransferShrinks(vals: seq<Bits>, vals': seq<Bits>, n: nat)
      requires Valid() && n in active && |vals| == |srcs| == |vals'|
      requires forall m :: m in active ==> vals'[m] <= vals[m]
      ensures Transfer(vals', n) <= Transfer(vals, n)
    {
    }

    lemma TransferSame(vals: seq<Bits>, vals': seq<Bits>, n: nat)
      requires Valid() && n in active && |vals| == |srcs| == |vals'|
      requires forall k :: 0 <= k < |srcs[n]| && !boundary[n] ==> vals'[srcs[n][k]] == vals[srcs[n][k]]
      ensures Transfer(vals', n) == Transfer(vals, n) && Meet(vals', n) == Meet(vals, n)
    {
    }

    lemma LostBitsAreRefuted(vals: seq<Bits>, n: nat, x: nat)
      requires Valid() && |vals| == |srcs| && Keeps(vals)
      requires n in active && x in ones && x !in Transfer(vals, n)
      ensures Refuted(n, x)
    {
      if boundary[n] || x !in pass[n] {
        assert Refutes([n], x);
      } else {
        assert x !in Meet(vals, n);
        var k :| 0 <= k < |srcs[n]| && x !in vals[srcs[n][k]];
        var chain :| Refutes(chain, x) && chain[0] == srcs[n][k];
        assert ([n] + chain)[1..] == chain;
        assert Refutes([n] + chain, x);
      }
    }

    lemma Step(vals: seq<Bits>, pending: set<nat>, touched: set<nat>, vals': seq<Bits>, pending': set<nat>)
      requires Inv(vals, pending) && Recomputed(vals, touched, vals')
      requires pending - touched <= pending'
      requires forall m, k :: m in active && !boundary[m] && 0 <= k < |srcs[m]| ==>
                 vals'[srcs[m][k]] == vals[srcs[m][k]] || m in pending'
      ensures Inv(vals', pending')
      ensures forall n :: n in active ==> vals'[n] <= vals[n]
    {
      forall n | n in active ensures Transfer(vals', n) <= vals'[n] <= ones {
        TransferShrinks(vals, vals', n);
      }
      forall n | n in active && n !in pending' ensures vals'[n] == Transfer(vals', n) {
        TransferSame(vals, vals', n);
      }
      forall n, x | n in active && x in ones && x !in vals'[n] ensures Refuted(n, x) {
        if n in touched {
          LostBitsAreRefuted(vals, n, x);
        }
      }
    }

    lemma {:induction false} FixpointsAvoidRefuted(vals: seq<Bits>, chain: seq<nat>, x: nat)
      requires Fixpoint(vals) && Refutes(chain, x)
      ensures x !in vals[chain[0]]
      decreases |chain|
    {
      if |chain| > 1 {
        FixpointsAvoidRefuted(vals, chain[1..], x);
        var k :| 0 <= k < |srcs[chain[0]]| && srcs[chain[0]][k] == chain[1];
        assert x !in Meet(vals, chain[0]);
      }
    }

    /** When nothing is pending, the values are the greatest solution. */
    lemma Done(vals: seq<Bits>)
      requires Inv(vals, {})
      ensures Fixpoint(vals) && Greatest(vals)
    {
      forall n, x | n in active && x in ones && Refuted(n, x) ensures x !in vals[n] {
        var chain :| Refutes(chain, x) && chain[0] == n;
        FixpointsAvoidRefuted(vals, chain, x);
      }
    }

    /** Every solution of the equations lies below the greatest one. */
    lemma GreatestIsLargest(vals: seq<Bits>, other: seq<Bits>, n: nat)
      requires Greatest(vals) && Fixpoint(other) && n in active && other[n] <= ones
      ensures other[n] <= vals[n]
    {
      forall x | x in other[n] ensures x in vals[n] {
        if Refuted(n, x) {
          var chain :| Refutes(chain, x) && chain[0] == n;
          FixpointsAvoidRefuted(other, chain, x);
        }
      }
    }
  }

  /** The number of bits left in all vectors: what the worklist loops decrease. */
  function Size(vals: seq<Bits>): nat {
    if vals == [] then 0 else Size(vals[..|vals| - 1]) + |vals[|vals| - 1]|
  }

  lemma CardinalityMonotone(a: Bits, b: Bits)
    requires a <= b
    ensures |a| <= |b| && (a != b ==> |a| < |b|)
  {
    assert b == a + (b - a);
    if a != b {
      var x :| x in b - a;
    }
  }

  lemma {:induction false} SizeShrinks(vals: seq<Bits>, vals': seq<Bits>)
    requires |vals| == |vals'| && forall n :: 0 <= n < |vals| ==> vals'[n] <= vals[n]
    ensures Size(vals') <= Size(vals)
    ensures vals' != vals ==> Size(vals') < Size(vals)
  {
    if vals != [] {
      var n := |vals| - 1;
      SizeShrinks(vals[..n], vals'[..n]);
      CardinalityMonotone(vals'[n], vals[n]);
      assert vals == vals[..n] + [vals[n]] && vals' == vals'[..n] + [vals'[n]];
    }
  }
}
