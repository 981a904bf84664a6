/** The worklist of the lazy-code-motion solvers: a fixed array used as a ring
    (qin, qout, qend) and one mark per block (the block's `param` field), which
    keeps a block from being queued twice. */
module WorkRing {
  import opened Cfg
  import opened Dfs

  /** Free: may be queued. Queued: is in the ring. Boundary: next to the entry or
      exit block, so it is visited once and never queued again. */
  datatype Mark = Free | Queued | Boundary

  class Ring {
    var slots: array<nat>
    var qin: nat
    var qout: nat
    var qlen: nat

    ghost var Contents: seq<nat>

    ghost predicate Valid()
      reads this, slots
    {
      && qlen == |Contents| <= slots.Length
      && (slots.Length > 0 ==> qin < slots.Length && qout < slots.Length && qin == Wrap(qout + qlen))
      && forall i :: 0 <= i < qlen ==> slots[Wrap(qout + i)] == Contents[i]
    }

    function Wrap(i: nat): nat
      reads this, slots
    {
      if i < slots.Length then i else i - slots.Length
    }

    constructor (order: seq<nat>)
      ensures Valid() && fresh(slots) && slots.Length == |order| && Contents == order
    {
      slots := new nat[|order|](i requires 0 <= i < |order| => order[i]);
      qin, qout, qlen := 0, 0, |order|;
      Contents := order;
    }

    method Pop() returns (b: nat)
      requires Valid() && qlen > 0
      modifies this`qout, this`qlen, this`Contents
      ensures Valid()
      ensures b == old(Contents)[0] && Contents == old(Contents)[1..]
    {
      b := slots[qout];
      assert slots[Wrap(qout + 0)] == Contents[0];
      qout := qout + 1;
      qlen := qlen - 1;
      if qout >= slots.Length {
        qout := 0;
      }
      Contents := Contents[1..];
    }

    method Push(b: nat)
      requires Valid() && qlen < slots.Length
      modifies this`qin, this`qlen, this`Contents, slots
      ensures Valid()
      ensures Contents == old(Contents) + [b]
    {
      slots[qin] := b;
      qlen := qlen + 1;
      qin := qin + 1;
      if qin >= slots.Length {
        qin := 0;
      }
      Contents := Contents + [b];
    }
  }

  /** Every queued block is ordinary, is queued once, and carries a mark that says so. */
  ghost predicate QueueOk(g: Graph, contents: seq<nat>, marks: seq<Mark>) {
    && |marks| == g.blocks
    && NoDuplicates(contents)
    && (forall b :: b in contents ==> g.Normal(b))
    && (forall b: nat :: g.Normal(b) && marks[b] != Boundary ==> (marks[b] == Free <==> b !in contents))
  }

  lemma {:induction false} DistinctFit(s: seq<nat>, all: set<nat>)
    requires NoDuplicates(s) && forall b :: b in s ==> b in all
    ensures |s| <= |all|
    decreases |s|
  {
    if s != [] {
      var n := |s| - 1;
      forall b | b in s[..n] ensures b in all - {s[n]} {
        var i :| 0 <= i < n && s[i] == b;
      }
      DistinctFit(s[..n], all - {s[n]});
    }
  }

  /** A ring with one slot per ordinary block always has room for a free one. */
  lemma RoomForFree(g: Graph, contents: seq<nat>, marks: seq<Mark>, b: nat)
    requires g.Valid() && QueueOk(g, contents, marks) && g.Normal(b) && marks[b] == Free
    ensures |contents| < g.blocks - 2
  {
    assert b !in contents;
    assert NoDuplicates(contents + [b]);
    DistinctFit(contents + [b], g.NormalBlocks());
  }

  lemma QueueFree(g: Graph, contents: seq<nat>, marks: seq<Mark>, b: nat)
    requires QueueOk(g, contents, marks) && g.Normal(b) && marks[b] == Free
    ensures QueueOk(g, contents + [b], marks[b := Queued])
  {
  }

  /** A block that is not queued goes to the end of the ring. */
  method Enqueue(g: Graph, ring: Ring, marks: array<Mark>, b: nat)
    requires g.Valid() && ring.Valid() && ring.slots.Length == g.blocks - 2
    requires QueueOk(g, ring.Contents, marks[..]) && g.Normal(b) && marks.Length == g.blocks && marks[b] == Free
    modifies ring`qin, ring`qlen, ring`Contents, ring.slots, marks
    ensures ring.Valid() && ring.slots == old(ring.slots) && QueueOk(g, ring.Contents, marks[..])
    ensures ring.Contents == old(ring.Contents) + [b] && marks[..] == old(marks[..])[b := Queued]
  {
    hide Graph.Valid, QueueOk;
    RoomForFree(g, ring.Contents, marks[..], b);
    QueueFree(g, ring.Contents, marks[..], b);
    ghost var marks0 := marks[..];
    ring.Push(b);
    marks[b] := Queued;
    assert marks[..] == marks0[b := Queued];
  }

  /** Queue the blocks of `targets` that are free, leaving `skip` out: the loop that
      follows a changed value over the edges of a block. */
  method Requeue(g: Graph, ring: Ring, marks: array<Mark>, targets: seq<nat>, skip: nat)
    requires g.Valid() && ring.Valid() && ring.slots.Length == g.blocks - 2
    requires QueueOk(g, ring.Contents, marks[..])
    requires forall b :: b in targets ==> g.Normal(b) || b == skip
    requires !g.Normal(skip)
    modifies ring`qin, ring`qlen, ring`Contents, ring.slots, marks
    ensures ring.Valid() && ring.slots.Length == g.blocks - 2
    ensures QueueOk(g, ring.Contents, marks[..])
    ensures forall b: nat :: g.Normal(b) ==> (marks[b] == Boundary <==> old(marks[b]) == Boundary)
    ensures forall b: nat :: g.Normal(b) ==>
              (b in ring.Contents <==> b in old(ring.Contents) || (b in targets && old(marks[b]) != Boundary))
  {
    var k := 0;
    while k < |targets|
      invariant 0 <= k <= |targets|
      invariant ring.Valid() && ring.slots == old(ring.slots)
      invariant QueueOk(g, ring.Contents, marks[..])
      invariant forall b: nat :: g.Normal(b) ==> (marks[b] == Boundary <==> old(marks[b]) == Boundary)
      invariant forall b: nat :: g.Normal(b) ==>
                  (b in ring.Contents <==> b in old(ring.Contents) || (b in targets[..k] && old(marks[b]) != Boundary))
    {
      var b := targets[k];
      assert b in targets && targets[..k + 1] == targets[..k] + [b];
      if b != skip && marks[b] == Free {
        Enqueue(g, ring, marks, b);
      }
      k := k + 1;
    }
    assert targets[..k] == targets;
  }
}
