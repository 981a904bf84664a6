/** How the live ranges of one register are built, walking over the code from its end to its
    beginning (backend/linearscan.c). */
module LiveRanges {
  import opened Ranges

  /** What an instruction does to the register. A call takes all the registers its callee may
      change from the first instruction that prepares its arguments on. */
  datatype Insn = Insn(uid: int, call: bool, start: int, defs: bool, uses: bool)

  /** A block, and whether the register is live where it begins and where it ends. */
  datatype Block = Block(insns: seq<Insn>, liveIn: bool, liveOut: bool)

  // ---------- where the register is held ----------

  /** None of the instructions from i to j - 1 defines the register after position p. */
  ghost predicate NoDef(x: Block, i: int, j: int, p: int) {
    forall d :: 0 <= i <= d < j <= |x.insns| && x.insns[d].defs ==> x.insns[d].uid <= p
  }

  /** Instruction k needs the register at position p, as far as the instructions from i on
      tell. */
  ghost predicate HeldBy(x: Block, before: int, i: int, k: int, p: int)
    requires 0 <= i <= k < |x.insns|
  {
    || (x.insns[k].call && x.insns[k].start <= p <= x.insns[k].uid && NoDef(x, i, k + 1, p))
    || (x.insns[k].defs && p == x.insns[k].uid)
    || (x.insns[k].uses && before <= p < x.insns[k].uid && NoDef(x, i, k, p))
  }

  ghost predicate HeldFrom(x: Block, before: int, after: int, i: int, p: int)
    requires 0 <= i <= |x.insns|
  {
    || (x.liveOut && before <= p < after && NoDef(x, i, |x.insns|, p))
    || exists k :: i <= k < |x.insns| && HeldBy(x, before, i, k, p)
  }

  /** The register is held at p because of this block: it enters the block alive, an
      instruction defines it at p, or one of the block's reads, calls or its end takes the
      value that the register has after p. */
  ghost predicate Held(x: Block, before: int, after: int, p: int) {
    (x.liveIn && p == before) || HeldFrom(x, before, after, 0, p)
  }

  /** Nothing in the block defines the register after p. */
  ghost predicate NotCut(x: Block, before: int, p: int) {
    NoDef(x, 0, |x.insns|, p) && (x.liveIn ==> before <= p)
  }

  // ---------- the numbering ----------

  /** The number of the first instruction of block b, or of the next one if it is empty. */
  function Start(blocks: seq<Block>, b: nat): (n: nat)
    requires b <= |blocks|
    ensures n >= 1
  {
    if b == 0 then 1 else Start(blocks, b - 1) + |blocks[b - 1].insns|
  }

  ghost predicate BlockNumbered(x: Block, first: int) {
    forall i :: 0 <= i < |x.insns| ==> x.insns[i].uid == first + i && first <= x.insns[i].start <= x.insns[i].uid
  }

  ghost predicate Numbered(blocks: seq<Block>) {
    forall b :: 0 <= b < |blocks| ==> BlockNumbered(blocks[b], Start(blocks, b))
  }

  lemma {:induction false} StartGrows(blocks: seq<Block>, b: nat, c: nat)
    requires b <= c <= |blocks|
    ensures Start(blocks, b) <= Start(blocks, c)
  {
    if b < c {
      StartGrows(blocks, b, c - 1);
    }
  }

  // ---------- one call ----------

  /** A list whose first range reaches down to the position the walk has come to, and whose
      second range lies behind it. */
  ghost predicate Ready(s: seq<Range>, bound: int) {
    && Sorted(s) && NoEmpty(s)
    && (s != [] ==> s[0].to >= bound)
    && (|s| > 1 ==> s[1].from >= bound)
  }

  lemma ReadyShape(s: seq<Range>, bound: int)
    requires Ready(s, bound)
    ensures Sorted(s) && NoEmpty(s)
  {
  }

  lemma ReadyBefore(s: seq<Range>, bound: int, earlier: int)
    requires Ready(s, bound) && earlier <= bound
    ensures Ready(s, earlier)
  {
  }

  lemma UseReady(s: seq<Range>, bound: int, from: int, to: int)
    requires Ready(s, bound) && 0 <= from < to <= bound
    ensures Ready(Ranges.AddRange(s, from, to), to)
    ensures forall p :: Covers(Ranges.AddRange(s, from, to), p) <==> Covers(s, p) || from <= p < to
  {
    AddRangeSorted(s, from, to);
    forall p ensures Covers(Ranges.AddRange(s, from, to), p) <==> Covers(s, p) || from <= p < to {
      AddRangeCovers(s, from, to, p);
    }
  }

  /** A definition cuts off everything before it and is itself covered. */
  lemma DefReady(s: seq<Range>, bound: int, pos: int)
    requires Ready(s, bound) && 0 <= pos < bound
    ensures Ready(Ranges.AddDef(s, pos), pos + 1)
    ensures forall p :: Covers(Ranges.AddDef(s, pos), p) <==> p == pos || (pos <= p && Covers(s, p))
  {
    hide Covers, Ranges.AddRange;
    if s != [] && s[0].from <= pos {
      CutCovers(s, bound, pos);
    } else {
      UseReady(s, bound, pos, pos + 1);
      AllBehind(s, pos);
    }
  }

  lemma AllBehind(s: seq<Range>, pos: int)
    requires Sorted(s) && (s == [] || pos < s[0].from)
    ensures forall p :: Covers(s, p) ==> pos < p
  {
    forall p | Covers(s, p) ensures pos < p {
      var i :| 0 <= i < |s| && s[i].from <= p < s[i].to;
      assert i > 0 ==> s[0].to <= s[i].from;
    }
  }

  lemma CutCovers(s: seq<Range>, bound: int, pos: int)
    requires Ready(s, bound) && 0 <= pos < bound && s != [] && s[0].from <= pos
    ensures Ready(Ranges.AddDef(s, pos), pos + 1)
    ensures forall p :: Covers(Ranges.AddDef(s, pos), p) <==> p == pos || (pos <= p && Covers(s, p))
  {
    var r := Ranges.AddDef(s, pos);
    assert forall i :: 0 < i < |s| ==> r[i] == s[i] && pos < s[0].to <= s[i].from;
    assert r[0] == Range(pos, s[0].to);
    forall p ensures Covers(r, p) <==> p == pos || (pos <= p && Covers(s, p)) {
      if Covers(r, p) {
        var i :| 0 <= i < |r| && r[i].from <= p < r[i].to;
        assert s[i].from <= p < s[i].to;
      }
      if p == pos || (pos <= p && Covers(s, p)) {
        var i :| 0 <= i < |s| && s[i].from <= p < s[i].to;
        assert r[i].from <= p < r[i].to;
      }
    }
  }

  // ---------- one instruction ----------

  lemma NoDefStep(x: Block, i: int, j: int, p: int)
    requires 0 <= i < j <= |x.insns|
    ensures NoDef(x, i, j, p) <==> NoDef(x, i + 1, j, p) && (x.insns[i].defs ==> x.insns[i].uid <= p)
  {
  }

  /** A definition lets only those through that hold the register after it. */
  lemma HeldStep(x: Block, before: int, after: int, i: nat, p: int)
    requires i < |x.insns| && BlockNumbered(x, before + 1)
    ensures HeldFrom(x, before, after, i, p) <==>
            || (HeldFrom(x, before, after, i + 1, p) && (x.insns[i].defs ==> x.insns[i].uid <= p))
            || HeldBy(x, before, i, i, p)
  {
    hide NoDef;
    NoDefStep(x, i, |x.insns|, p);
    forall k | i < k < |x.insns|
      ensures HeldBy(x, before, i, k, p) <==>
              HeldBy(x, before, i + 1, k, p) && (x.insns[i].defs ==> x.insns[i].uid <= p)
    {
      NoDefStep(x, i, k, p);
      NoDefStep(x, i, k + 1, p);
    }
    if HeldFrom(x, before, after, i + 1, p) && (x.insns[i].defs ==> x.insns[i].uid <= p) {
      var next := i + 1;
      if k :| next <= k < |x.insns| && HeldBy(x, before, next, k, p) {
        assert HeldBy(x, before, i, k, p);
      }
    }
  }

  /** The three calls for one instruction, as far as coverage goes: s1 before them, s2 after
      the call, s3 after the definition, s4 after the read. */
  lemma InsnHeld(x: Block, before: int, after: int, i: nat, c0: bool, c1: bool, c2: bool, c3: bool, c4: bool, p: int)
    requires i < |x.insns| && BlockNumbered(x, before + 1)
    requires c1 <==> (c0 && NoDef(x, i + 1, |x.insns|, p)) || HeldFrom(x, before, after, i + 1, p)
    requires c2 <==> c1 || (x.insns[i].call && x.insns[i].start <= p <= x.insns[i].uid)
    requires c3 <==> if x.insns[i].defs then p == x.insns[i].uid || (x.insns[i].uid <= p && c2) else c2
    requires c4 <==> c3 || (x.insns[i].uses && before <= p < x.insns[i].uid)
    ensures c4 <==> (c0 && NoDef(x, i, |x.insns|, p)) || HeldFrom(x, before, after, i, p)
  {
    hide HeldFrom;
    HeldStep(x, before, after, i, p);
    NoDefStep(x, i, |x.insns|, p);
    NoDefStep(x, i, i + 1, p);
  }

  // ---------- the walk ----------

  /** struct Interval: the ranges of one register. */
  class Interval {
    var ranges: seq<Range>

    constructor ()
      ensures ranges == []
    {
      ranges := [];
    }

    method AddUse(from: int, to: int)
      modifies this
      ensures ranges == Ranges.AddRange(old(ranges), from, to)
    {
      AddRange(from, to);
    }

    method AddRange(from: int, to: int)
      modifies this
      ensures ranges == Ranges.AddRange(old(ranges), from, to)
    {
      if ranges != [] && ranges[0].from <= to {
        ranges := ranges[0 := Range(Min(from, ranges[0].from), Max(to, ranges[0].to))];
      } else {
        ranges := [Range(from, to)] + ranges;
      }
    }

    method AddDef(pos: int)
      modifies this
      ensures ranges == Ranges.AddDef(old(ranges), pos)
    {
      if ranges != [] && ranges[0].from <= pos {
        ranges := ranges[0 := ranges[0].(from := pos)];
      } else {
        AddRange(pos, pos + 1);
      }
    }

    /** One instruction: first a call, then a definition, then a read. */
    method ScanInsn(x: Block, before: int, after: int, i: nat, ghost s0: seq<Range>)
      requires i < |x.insns| && BlockNumbered(x, before + 1) && 0 <= before
      requires Ready(ranges, x.insns[i].uid + 1)
      requires forall p :: Covers(ranges, p) <==>
                 (Covers(s0, p) && NoDef(x, i + 1, |x.insns|, p)) || HeldFrom(x, before, after, i + 1, p)
      modifies this
      ensures Ready(ranges, x.insns[i].uid)
      ensures forall p :: Covers(ranges, p) <==>
                (Covers(s0, p) && NoDef(x, i, |x.insns|, p)) || HeldFrom(x, before, after, i, p)
    {
      hide Ready, Ranges.AddRange, Ranges.AddDef, Covers, NoDef, HeldFrom;
      var insn := x.insns[i];
      ghost var s1 := ranges;
      if insn.call {
        UseReady(ranges, insn.uid + 1, insn.start, insn.uid + 1);
        AddUse(insn.start, insn.uid + 1);
      }
      ghost var s2 := ranges;
      if insn.defs {
        DefReady(ranges, insn.uid + 1, insn.uid);
        AddDef(insn.uid);
      }
      ghost var s3 := ranges;
      if insn.uses {
        UseReady(ranges, insn.uid + 1, before, insn.uid);
        AddUse(before, insn.uid);
      }
      ReadyBefore(ranges, if insn.uses then insn.uid else insn.uid + 1, insn.uid);
      forall p
        ensures Covers(ranges, p) <==>
                (Covers(s0, p) && NoDef(x, i, |x.insns|, p)) || HeldFrom(x, before, after, i, p)
      {
        InsnHeld(x, before, after, i, Covers(s0, p), Covers(s1, p), Covers(s2, p), Covers(s3, p), Covers(ranges, p), p);
      }
    }

    /** One block, from its last instruction to its first. */
    method ScanBlock(x: Block, before: int, after: int)
      requires BlockNumbered(x, before + 1) && 0 <= before && after == before + 1 + |x.insns|
      requires Ready(ranges, after)
      modifies this
      ensures Ready(ranges, before + 1)
      ensures forall p :: Covers(ranges, p) <==>
                (old(Covers(ranges, p)) && NotCut(x, before, p)) || Held(x, before, after, p)
    {
      hide Ready, Covers, HeldFrom;
      ghost var s0 := ranges;
      if x.liveOut {
        UseReady(ranges, after, before, after);
        AddUse(before, after);
      }
      EndHeld(x, before, after);
      var i := |x.insns|;
      while i > 0
        invariant 0 <= i <= |x.insns| && Ready(ranges, before + 1 + i)
        invariant forall p :: Covers(ranges, p) <==>
                    (Covers(s0, p) && NoDef(x, i, |x.insns|, p)) || HeldFrom(x, before, after, i, p)
      {
        i := i - 1;
        ScanInsn(x, before, after, i, s0);
      }
      if x.liveIn {
        DefReady(ranges, before + 1, before);
        AddDef(before);
      }
      HeldInside(x, before, after);
    }

    /** The walk over all blocks for one register; one that is not available is taken for
        the whole function first. Afterwards the ranges are in order and cover exactly the
        positions where the register is held. */
    method Scan(blocks: seq<Block>, available: bool)
      requires Numbered(blocks) && ranges == []
      modifies this
      ensures Sorted(ranges) && NoEmpty(ranges)
      ensures forall p :: Covers(ranges, p) <==>
                (!available && Kept(blocks, 0, p)) || HeldAfter(blocks, 0, p)
    {
      hide Covers, NotCut, HeldAfter, Kept, BlockNumbered, Numbered, Sorted, NoEmpty;
      var insnOrder := Numbers(blocks);
      if !available {
        AddDef(0);
        AddUse(0, insnOrder);
      }
      assert ranges == if available then [] else [Range(0, insnOrder)];
      NothingYet(blocks, ranges, available);
      hide Start, Numbers, Ready;
      var lastUid := -1;
      var b := |blocks|;
      while b > 0
        invariant 0 <= b <= |blocks| && Ready(ranges, Start(blocks, b))
        invariant lastUid == if Start(blocks, b) == insnOrder then -1 else Start(blocks, b)
        invariant forall p :: Covers(ranges, p) <==> (!available && Kept(blocks, b, p)) || HeldAfter(blocks, b, p)
      {
        b := b - 1;
        var x := blocks[b];
        BlockShape(blocks, b);
        var after := if lastUid >= 0 then lastUid else insnOrder;
        var before := if x.insns != [] then x.insns[0].uid else after;
        before := before - 1;
        ghost var s1 := ranges;
        ScanBlock(x, before, after);
        forall p ensures Covers(ranges, p) <==> (!available && Kept(blocks, b, p)) || HeldAfter(blocks, b, p) {
          BlockStep(blocks, !available, b, Covers(s1, p), Covers(ranges, p), p);
        }
        if x.insns != [] {
          lastUid := x.insns[0].uid;
        }
      }
      ReadyShape(ranges, Start(blocks, 0));
    }
  }

  lemma NothingYet(blocks: seq<Block>, s: seq<Range>, available: bool)
    requires s == if available then [] else [Range(0, Numbers(blocks))]
    ensures Ready(s, Numbers(blocks))
    ensures forall p :: Covers(s, p) <==>
              (!available && Kept(blocks, |blocks|, p)) || HeldAfter(blocks, |blocks|, p)
  {
    forall p ensures Covers(s, p) <==> !available && 0 <= p < Numbers(blocks) {
      if !available && 0 <= p < Numbers(blocks) {
        assert s[0].from <= p < s[0].to;
      }
    }
  }

  lemma EndHeld(x: Block, before: int, after: int)
    ensures forall p :: NoDef(x, |x.insns|, |x.insns|, p)
    ensures forall p :: HeldFrom(x, before, after, |x.insns|, p) <==> x.liveOut && before <= p < after
  {
  }

  // ---------- all blocks ----------

  /** Every number that has been handed out, and with it the end of the last block. */
  function Numbers(blocks: seq<Block>): (n: nat)
    ensures n >= 1
  {
    Start(blocks, |blocks|)
  }

  /** Some block from b on needs the register at p. */
  ghost predicate HeldAfter(blocks: seq<Block>, b: nat, p: int) {
    exists c: nat :: b <= c < |blocks| && HeldInBlock(blocks, c, p)
  }

  /** The register is held at p because of block c, whose numbers begin at Start(blocks, c). */
  ghost predicate HeldInBlock(blocks: seq<Block>, c: nat, p: int)
    requires c < |blocks|
  {
    Held(blocks[c], Start(blocks, c) - 1, Start(blocks, c + 1), p)
  }

  /** A register that must not be given away is held until the last definition. */
  ghost predicate Kept(blocks: seq<Block>, b: nat, p: int) {
    && 0 <= p < Numbers(blocks)
    && forall c: nat :: b <= c < |blocks| ==> NotCut(blocks[c], Start(blocks, c) - 1, p)
  }

  /** The instructions of block b lie before everything that a later block holds. */
  lemma LaterNotCut(blocks: seq<Block>, b: nat, c: nat, p: int)
    requires Numbered(blocks) && b < c < |blocks| && HeldInBlock(blocks, c, p)
    ensures NotCut(blocks[b], Start(blocks, b) - 1, p)
  {
    hide BlockNumbered, Numbered, HeldFrom, NotCut, NoDef, Start, Numbers;
    BlockShape(blocks, b);
    BlockShape(blocks, c);
    HeldInside(blocks[c], Start(blocks, c) - 1, Start(blocks, c + 1));
    StartGrows(blocks, b + 1, c);
    BehindBlock(blocks[b], Start(blocks, b), p);
  }

  lemma BlockShape(blocks: seq<Block>, b: nat)
    requires Numbered(blocks) && b < |blocks|
    ensures BlockNumbered(blocks[b], Start(blocks, b)) && Start(blocks, b) >= 1
    ensures Start(blocks, b + 1) == Start(blocks, b) + |blocks[b].insns| <= Numbers(blocks)
    ensures blocks[b].insns != [] ==> blocks[b].insns[0].uid == Start(blocks, b)
  {
    StartGrows(blocks, b + 1, |blocks|);
  }

  lemma BehindBlock(x: Block, first: int, p: int)
    requires BlockNumbered(x, first) && first + |x.insns| <= p + 1
    ensures NotCut(x, first - 1, p)
  {
  }

  lemma BlockStep(blocks: seq<Block>, reserved: bool, b: nat, before: bool, now: bool, p: int)
    requires Numbered(blocks) && b < |blocks|
    requires before <==> (reserved && Kept(blocks, b + 1, p)) || HeldAfter(blocks, b + 1, p)
    requires now <==> (before && NotCut(blocks[b], Start(blocks, b) - 1, p)) || HeldInBlock(blocks, b, p)
    ensures now <==> (reserved && Kept(blocks, b, p)) || HeldAfter(blocks, b, p)
  {
    hide NotCut, HeldInBlock, Start, BlockNumbered, Numbered, Numbers;
    if c: nat :| b < c < |blocks| && HeldInBlock(blocks, c, p) {
      LaterNotCut(blocks, b, c, p);
    }
  }

  lemma HeldInside(x: Block, before: int, after: int)
    requires BlockNumbered(x, before + 1)
    ensures forall p :: HeldFrom(x, before, after, 0, p) ==> before <= p
  {
  }
}
