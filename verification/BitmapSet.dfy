/** Sparse bit sets as sorted lists of non-zero blocks, and what the set operations make of
    them (utils/bitmap.c). */
module BitmapSet {
  import opened BitWords

  const ELEMENT_WORDS: nat := 4
  const ELEMENT_BITS: nat := 128

  type Bits = s: seq<Word> | |s| == ELEMENT_WORDS witness seq(ELEMENT_WORDS, _ => Zero())

  datatype Elem = Elem(indx: nat, bits: Bits)

  predicate NonZero(b: Bits) {
    exists i :: 0 <= i < ELEMENT_WORDS && b[i] != Zero()
  }

  /** Sorted by index, each index once, no block without bits. */
  ghost predicate Good(s: seq<Elem>) {
    && (forall i, j :: 0 <= i < j < |s| ==> s[i].indx < s[j].indx)
    && (forall i :: 0 <= i < |s| ==> NonZero(s[i].bits))
  }

  predicate BitOf(b: Bits, bit: nat) {
    b[bit / WORD_BITS % ELEMENT_WORDS][bit % WORD_BITS]
  }

  /** The set that a list stands for. */
  ghost predicate Has(s: seq<Elem>, bit: nat) {
    exists i :: 0 <= i < |s| && s[i].indx == bit / ELEMENT_BITS && BitOf(s[i].bits, bit)
  }

  function ApplyBits(op: Op, x: Bits, y: Bits): Bits {
    seq(ELEMENT_WORDS, i requires 0 <= i < ELEMENT_WORDS => Apply(op, x[i], y[i]))
  }

  lemma ApplyBitOf(op: Op, x: Bits, y: Bits, bit: nat)
    ensures BitOf(ApplyBits(op, x, y), bit) == ApplyBit(op, BitOf(x, bit), BitOf(y, bit))
  {
  }

  // ---------- the four operations ----------

  function Keep(keep: bool, e: Elem): seq<Elem> {
    if keep then [e] else []
  }

  /** The merge that all forms of the four operations carry out. */
  function Combine(op: Op, a: seq<Elem>, b: seq<Elem>): seq<Elem> {
    if a == [] && b == [] then []
    else if a != [] && b != [] && a[0].indx == b[0].indx then
      var e := Elem(a[0].indx, ApplyBits(op, a[0].bits, b[0].bits));
      Keep(NonZero(e.bits), e) + Combine(op, a[1..], b[1..])
    else if b == [] || (a != [] && a[0].indx < b[0].indx) then
      Keep(op != And, a[0]) + Combine(op, a[1..], b)
    else
      Keep(op == Ior || op == Xor, b[0]) + Combine(op, a, b[1..])
  }

  ghost predicate Above(s: seq<Elem>, n: int) {
    forall i :: 0 <= i < |s| ==> s[i].indx > n
  }

  lemma TailGood(s: seq<Elem>)
    requires Good(s) && s != []
    ensures Good(s[1..]) && Above(s[1..], s[0].indx) && forall n :: Above(s, n) <==> s[0].indx > n
  {
  }

  lemma ConsGood(e: Elem, s: seq<Elem>)
    requires Good(s) && Above(s, e.indx) && NonZero(e.bits)
    ensures Good([e] + s) && forall n :: e.indx > n ==> Above([e] + s, n)
  {
    var t := [e] + s;
    forall i, j | 0 <= i < j < |t| ensures t[i].indx < t[j].indx {
      assert t[j] == s[j - 1];
      assert i > 0 ==> t[i] == s[i - 1];
    }
    forall i | 0 <= i < |t| ensures NonZero(t[i].bits) {
      assert i > 0 ==> t[i] == s[i - 1];
    }
  }

  lemma {:induction false} CombineGood(op: Op, a: seq<Elem>, b: seq<Elem>, n: int)
    requires Good(a) && Good(b) && Above(a, n) && Above(b, n)
    ensures Good(Combine(op, a, b)) && Above(Combine(op, a, b), n)
    decreases |a| + |b|
  {
    hide Good, NonZero, ApplyBits, Above;
    if a == [] && b == [] {
      NothingGood();
    } else if a != [] && b != [] && a[0].indx == b[0].indx {
      TailGood(a);
      TailGood(b);
      var e, r := Elem(a[0].indx, ApplyBits(op, a[0].bits, b[0].bits)), Combine(op, a[1..], b[1..]);
      CombineGood(op, a[1..], b[1..], a[0].indx);
      KeptGood(NonZero(e.bits), e, r, n);
    } else if b == [] || (a != [] && a[0].indx < b[0].indx) {
      TailGood(a);
      FirstAbove(b, a[0].indx);
      CombineGood(op, a[1..], b, a[0].indx);
      FirstNonZero(a);
      KeptGood(op != And, a[0], Combine(op, a[1..], b), n);
    } else {
      TailGood(b);
      FirstAbove(a, b[0].indx);
      CombineGood(op, a, b[1..], b[0].indx);
      FirstNonZero(b);
      KeptGood(op == Ior || op == Xor, b[0], Combine(op, a, b[1..]), n);
    }
  }

  lemma KeptGood(keep: bool, e: Elem, s: seq<Elem>, n: int)
    requires Good(s) && Above(s, e.indx) && e.indx > n && (keep ==> NonZero(e.bits))
    ensures Good(Keep(keep, e) + s) && Above(Keep(keep, e) + s, n)
  {
    if keep {
      ConsGood(e, s);
    } else {
      assert [] + s == s;
    }
  }

  lemma NothingGood()
    ensures Good([]) && forall n :: Above([], n)
  {
  }

  lemma FirstAbove(s: seq<Elem>, n: int)
    requires Good(s) && (s != [] ==> s[0].indx > n)
    ensures Above(s, n)
  {
  }

  lemma FirstNonZero(s: seq<Elem>)
    requires Good(s) && s != []
    ensures NonZero(s[0].bits)
  {
  }

  lemma HasCons(e: Elem, s: seq<Elem>, bit: nat)
    ensures Has([e] + s, bit) <==> (e.indx == bit / ELEMENT_BITS && BitOf(e.bits, bit)) || Has(s, bit)
  {
    var t := [e] + s;
    if Has(s, bit) {
      var i :| 0 <= i < |s| && s[i].indx == bit / ELEMENT_BITS && BitOf(s[i].bits, bit);
      assert t[i + 1] == s[i];
    }
    if e.indx == bit / ELEMENT_BITS && BitOf(e.bits, bit) {
      assert t[0] == e;
    }
    if Has(t, bit) {
      var i :| 0 <= i < |t| && t[i].indx == bit / ELEMENT_BITS && BitOf(t[i].bits, bit);
      assert i > 0 ==> s[i - 1] == t[i];
    }
  }

  lemma HasFirst(s: seq<Elem>, bit: nat)
    requires s != []
    ensures Has(s, bit) <==> (s[0].indx == bit / ELEMENT_BITS && BitOf(s[0].bits, bit)) || Has(s[1..], bit)
  {
    assert s == [s[0]] + s[1..];
    HasCons(s[0], s[1..], bit);
  }

  lemma HasAbove(s: seq<Elem>, n: int, bit: nat)
    requires Above(s, n) && bit / ELEMENT_BITS <= n
    ensures !Has(s, bit)
  {
  }

  lemma ZeroBlock(b: Bits, bit: nat)
    requires !NonZero(b)
    ensures !BitOf(b, bit)
  {
    var i := bit / WORD_BITS % ELEMENT_WORDS;
    assert b[i] == Zero();
  }

  /** The list that an operation yields stands for the set that it should. */
  lemma {:induction false} CombineMeaning(op: Op, a: seq<Elem>, b: seq<Elem>, bit: nat)
    requires Good(a) && Good(b)
    ensures Has(Combine(op, a, b), bit) <==> ApplyBit(op, Has(a, bit), Has(b, bit))
    decreases |a| + |b|
  {
    hide Good, NonZero, ApplyBits, Has, BitOf, Above;
    if a == [] && b == [] {
      NothingHas(bit);
    } else if a != [] && b != [] && a[0].indx == b[0].indx {
      TailGood(a);
      TailGood(b);
      CombineMeaning(op, a[1..], b[1..], bit);
      var e, r := Elem(a[0].indx, ApplyBits(op, a[0].bits, b[0].bits)), Combine(op, a[1..], b[1..]);
      HasFirst(a, bit);
      HasFirst(b, bit);
      ApplyBitOf(op, a[0].bits, b[0].bits, bit);
      HasKept(e, r, bit);
      if e.indx == bit / ELEMENT_BITS {
        HasAbove(a[1..], e.indx, bit);
        HasAbove(b[1..], e.indx, bit);
        CombineGood(op, a[1..], b[1..], e.indx);
      }
    } else if b == [] || (a != [] && a[0].indx < b[0].indx) {
      TailGood(a);
      FirstAbove(b, a[0].indx);
      CombineMeaning(op, a[1..], b, bit);
      HasFirst(a, bit);
      HasCons(a[0], Combine(op, a[1..], b), bit);
      assert [] + Combine(op, a[1..], b) == Combine(op, a[1..], b);
      if a[0].indx == bit / ELEMENT_BITS {
        HasAbove(b, a[0].indx, bit);
        HasAbove(a[1..], a[0].indx, bit);
      }
    } else {
      TailGood(b);
      FirstAbove(a, b[0].indx);
      CombineMeaning(op, a, b[1..], bit);
      HasFirst(b, bit);
      HasCons(b[0], Combine(op, a, b[1..]), bit);
      assert [] + Combine(op, a, b[1..]) == Combine(op, a, b[1..]);
      if b[0].indx == bit / ELEMENT_BITS {
        HasAbove(a, b[0].indx, bit);
        HasAbove(b[1..], b[0].indx, bit);
      }
    }
  }

  lemma NothingHas(bit: nat)
    ensures !Has([], bit)
  {
  }

  lemma HasKept(e: Elem, s: seq<Elem>, bit: nat)
    ensures Has(Keep(NonZero(e.bits), e) + s, bit) <==>
              (e.indx == bit / ELEMENT_BITS && BitOf(e.bits, bit)) || Has(s, bit)
  {
    hide Has, BitOf;
    if NonZero(e.bits) {
      HasCons(e, s, bit);
    } else {
      assert [] + s == s;
      ZeroBlock(e.bits, bit);
    }
  }

  // ---------- one list for each set ----------

  lemma BitAt(b: Bits, w: nat, k: nat, indx: nat)
    requires w < ELEMENT_WORDS && k < WORD_BITS
    ensures var bit := indx * ELEMENT_BITS + w * WORD_BITS + k; bit / ELEMENT_BITS == indx && BitOf(b, bit) == b[w][k]
  {
    var bit := indx * ELEMENT_BITS + w * WORD_BITS + k;
    assert bit / WORD_BITS == indx * ELEMENT_WORDS + w;
    assert bit % WORD_BITS == k;
    assert (indx * ELEMENT_WORDS + w) % ELEMENT_WORDS == w;
  }

  /** The bits of the first block are the bits of its index. */
  lemma FirstBits(s: seq<Elem>, bit: nat)
    requires Good(s) && s != [] && s[0].indx == bit / ELEMENT_BITS
    ensures Has(s, bit) <==> BitOf(s[0].bits, bit)
  {
    TailGood(s);
    HasFirst(s, bit);
    HasAbove(s[1..], s[0].indx, bit);
  }

  lemma FirstHasBit(s: seq<Elem>) returns (bit: nat)
    requires Good(s) && s != []
    ensures Has(s, bit) && bit / ELEMENT_BITS == s[0].indx
  {
    assert NonZero(s[0].bits);
    var w: nat :| w < ELEMENT_WORDS && s[0].bits[w] != Zero();
    ZeroBits(s[0].bits[w]);
    var k: nat :| k < WORD_BITS && s[0].bits[w][k];
    bit := s[0].indx * ELEMENT_BITS + w * WORD_BITS + k;
    BitAt(s[0].bits, w, k, s[0].indx);
    FirstBits(s, bit);
  }

  lemma BlocksEqual(x: Bits, y: Bits, indx: nat)
    requires forall bit: nat :: bit / ELEMENT_BITS == indx ==> BitOf(x, bit) == BitOf(y, bit)
    ensures x == y
  {
    forall w | 0 <= w < ELEMENT_WORDS ensures x[w] == y[w] {
      forall k | 0 <= k < WORD_BITS ensures x[w][k] == y[w][k] {
        BitAt(x, w, k, indx);
        BitAt(y, w, k, indx);
      }
      SameBits(x[w], y[w]);
    }
  }

  ghost predicate SameSet(a: seq<Elem>, b: seq<Elem>) {
    forall bit: nat :: Has(a, bit) <==> Has(b, bit)
  }

  /** Two lists in order stand for the same set only if they are equal. */
  lemma {:induction false} Canonical(a: seq<Elem>, b: seq<Elem>)
    requires Good(a) && Good(b) && SameSet(a, b)
    ensures a == b
    decreases |a|
  {
    if a == [] || b == [] {
      forall bit: nat ensures !Has(a, bit) && !Has(b, bit) {
        assert Has(a, bit) <==> Has(b, bit);
        NothingHas(bit);
      }
      EmptySet(a);
      EmptySet(b);
    } else {
      FirstIndex(a, b);
      FirstIndex(b, a);
      hide Good, NonZero, Has, BitOf;
      forall bit: nat | bit / ELEMENT_BITS == a[0].indx ensures BitOf(a[0].bits, bit) == BitOf(b[0].bits, bit) {
        FirstBits(a, bit);
        FirstBits(b, bit);
        assert Has(a, bit) <==> Has(b, bit);
      }
      BlocksEqual(a[0].bits, b[0].bits, a[0].indx);
      TailGood(a);
      TailGood(b);
      forall bit: nat ensures Has(a[1..], bit) <==> Has(b[1..], bit) {
        assert Has(a, bit) <==> Has(b, bit);
        HasFirst(a, bit);
        HasFirst(b, bit);
        if bit / ELEMENT_BITS == a[0].indx {
          HasAbove(a[1..], a[0].indx, bit);
          HasAbove(b[1..], a[0].indx, bit);
        }
      }
      Canonical(a[1..], b[1..]);
      assert a == [a[0]] + a[1..] && b == [b[0]] + b[1..];
    }
  }

  lemma FirstIndex(a: seq<Elem>, b: seq<Elem>)
    requires Good(a) && Good(b) && SameSet(a, b) && a != [] && b != []
    ensures b[0].indx <= a[0].indx
  {
    var bit := FirstHasBit(a);
    assert Has(b, bit);
    FirstLeast(b, bit);
  }

  lemma FirstLeast(s: seq<Elem>, bit: nat)
    requires Good(s) && Has(s, bit)
    ensures s != [] && s[0].indx <= bit / ELEMENT_BITS
  {
  }

  lemma EmptySet(s: seq<Elem>)
    requires Good(s) && forall bit: nat :: !Has(s, bit)
    ensures s == []
  {
    if s != [] {
      var bit := FirstHasBit(s);
    }
  }

  // ---------- single bits ----------

  function WordOf(bit: nat): nat {
    bit / WORD_BITS % ELEMENT_WORDS
  }

  /** One word of a block combined with the mask of one bit. */
  function Touch(op: Op, b: Bits, bit: nat): Bits {
    b[WordOf(bit) := Apply(op, b[WordOf(bit)], Mask(bit % WORD_BITS))]
  }

  lemma SamePlace(p: nat, q: nat)
    requires p / ELEMENT_BITS == q / ELEMENT_BITS && WordOf(p) == WordOf(q) && p % WORD_BITS == q % WORD_BITS
    ensures p == q
  {
    assert p / WORD_BITS / ELEMENT_WORDS == p / ELEMENT_BITS && q / WORD_BITS / ELEMENT_WORDS == q / ELEMENT_BITS;
  }

  lemma TouchBits(op: Op, b: Bits, bit: nat, p: nat)
    requires p / ELEMENT_BITS == bit / ELEMENT_BITS
    ensures BitOf(Touch(op, b, bit), p) == if WordOf(p) == WordOf(bit) then ApplyBit(op, BitOf(b, p), p == bit)
              else BitOf(b, p)
  {
    if p % WORD_BITS == bit % WORD_BITS && WordOf(p) == WordOf(bit) {
      SamePlace(p, bit);
    }
  }

  /** Setting or clearing one bit of a block. */
  lemma SetOrClear(b: Bits, bit: nat, p: nat)
    requires p / ELEMENT_BITS == bit / ELEMENT_BITS
    ensures BitOf(Touch(Ior, b, bit), p) <==> BitOf(b, p) || p == bit
    ensures BitOf(Touch(AndCompl, b, bit), p) <==> BitOf(b, p) && p != bit
  {
    TouchBits(Ior, b, bit, p);
    TouchBits(AndCompl, b, bit, p);
  }

  lemma HasAt(s: seq<Elem>, i: nat, bit: nat)
    requires Good(s) && i < |s| && s[i].indx == bit / ELEMENT_BITS
    ensures Has(s, bit) <==> BitOf(s[i].bits, bit)
  {
  }

  lemma BitMakesNonZero(b: Bits, bit: nat)
    requires BitOf(b, bit)
    ensures NonZero(b)
  {
    ZeroBits(b[WordOf(bit)]);
  }

  /** One block exchanged for another of the same index. */
  lemma BlockChanged(s: seq<Elem>, i: nat, b: Bits)
    requires Good(s) && i < |s|
    ensures var t := s[i := Elem(s[i].indx, b)];
            && (NonZero(b) ==> Good(t))
            && forall bit: nat :: Has(t, bit) <==>
                   if bit / ELEMENT_BITS == s[i].indx then BitOf(b, bit) else Has(s, bit)
  {
    var t := s[i := Elem(s[i].indx, b)];
    forall bit: nat ensures Has(t, bit) <==> if bit / ELEMENT_BITS == s[i].indx then BitOf(b, bit) else Has(s, bit) {
      if bit / ELEMENT_BITS == s[i].indx {
        if BitOf(b, bit) {
          assert t[i].indx == bit / ELEMENT_BITS && BitOf(t[i].bits, bit);
        }
      } else {
        if Has(s, bit) {
          var j :| 0 <= j < |s| && s[j].indx == bit / ELEMENT_BITS && BitOf(s[j].bits, bit);
          assert t[j] == s[j];
        }
        if Has(t, bit) {
          var j :| 0 <= j < |t| && t[j].indx == bit / ELEMENT_BITS && BitOf(t[j].bits, bit);
          assert t[j] == s[j];
        }
      }
    }
  }

  /** A block without bits may go. */
  lemma BlockDropped(s: seq<Elem>, i: nat, b: Bits)
    requires Good(s) && i < |s| && !NonZero(b)
    ensures var t := s[..i] + s[i + 1..];
            Good(t) && forall bit: nat :: Has(t, bit) <==> bit / ELEMENT_BITS != s[i].indx && Has(s, bit)
  {
    var t := s[..i] + s[i + 1..];
    assert forall j :: 0 <= j < |t| ==> t[j] == s[if j < i then j else j + 1];
    assert Good(t);
    hide NonZero, BitOf;
    forall bit: nat ensures Has(t, bit) <==> bit / ELEMENT_BITS != s[i].indx && Has(s, bit) {
      DroppedHas(s, i, t, bit / ELEMENT_BITS, bit);
    }
  }

  lemma DroppedHas(s: seq<Elem>, i: nat, t: seq<Elem>, index: nat, bit: nat)
    requires Good(s) && i < |s| && |t| == |s| - 1 && index == bit / ELEMENT_BITS
    requires forall j :: 0 <= j < |t| ==> t[j] == s[if j < i then j else j + 1]
    ensures Has(t, bit) <==> index != s[i].indx && Has(s, bit)
  {
    hide NonZero, BitOf;
    if index != s[i].indx && Has(s, bit) {
      var j :| 0 <= j < |s| && s[j].indx == index && BitOf(s[j].bits, bit);
      assert t[if j < i then j else j - 1] == s[j];
    }
    if Has(t, bit) {
      var j :| 0 <= j < |t| && t[j].indx == index && BitOf(t[j].bits, bit);
      assert t[j] == s[if j < i then j else j + 1];
    }
  }

  /** A block put in where its index belongs. */
  lemma BlockAdded(s: seq<Elem>, i: nat, e: Elem)
    requires Good(s) && i <= |s| && NonZero(e.bits)
    requires (i > 0 ==> s[i - 1].indx < e.indx) && (i < |s| ==> e.indx < s[i].indx)
    ensures var t := s[..i] + [e] + s[i..];
            Good(t) && forall bit: nat :: Has(t, bit) <==>
              Has(s, bit) || (e.indx == bit / ELEMENT_BITS && BitOf(e.bits, bit))
  {
    var t := s[..i] + [e] + s[i..];
    assert forall j :: 0 <= j < |t| ==> t[j] == if j == i then e else s[if j < i then j else j - 1];
    AddedGood(s, i, e, t);
    hide Good, NonZero;
    forall bit: nat ensures Has(t, bit) <==> Has(s, bit) || (e.indx == bit / ELEMENT_BITS && BitOf(e.bits, bit)) {
      AddedHas(s, i, e, t, bit);
    }
  }

  lemma AddedGood(s: seq<Elem>, i: nat, e: Elem, t: seq<Elem>)
    requires Good(s) && i <= |s| && NonZero(e.bits) && |t| == |s| + 1
    requires (i > 0 ==> s[i - 1].indx < e.indx) && (i < |s| ==> e.indx < s[i].indx)
    requires forall j :: 0 <= j < |t| ==> t[j] == if j == i then e else s[if j < i then j else j - 1]
    ensures Good(t)
  {
    forall j, k | 0 <= j < k < |t| ensures t[j].indx < t[k].indx {
      if j == i {
        assert s[i].indx <= s[k - 1].indx;
      } else if k == i {
        assert s[j].indx <= s[i - 1].indx;
      }
    }
  }

  lemma AddedHas(s: seq<Elem>, i: nat, e: Elem, t: seq<Elem>, bit: nat)
    requires i <= |s| && |t| == |s| + 1
    requires forall j :: 0 <= j < |t| ==> t[j] == if j == i then e else s[if j < i then j else j - 1]
    ensures Has(t, bit) <==> Has(s, bit) || (e.indx == bit / ELEMENT_BITS && BitOf(e.bits, bit))
  {
    if Has(s, bit) {
      var j :| 0 <= j < |s| && s[j].indx == bit / ELEMENT_BITS && BitOf(s[j].bits, bit);
      assert t[if j < i then j else j + 1] == s[j];
    }
    if e.indx == bit / ELEMENT_BITS && BitOf(e.bits, bit) {
      assert t[i] == e;
    }
  }

  lemma NoBlock(s: seq<Elem>, bit: nat)
    requires forall i :: 0 <= i < |s| ==> s[i].indx != bit / ELEMENT_BITS
    ensures !Has(s, bit)
  {
  }

  function ZeroBlocks(): Bits {
    seq(ELEMENT_WORDS, _ => Zero())
  }

  /** A block with one bit. */
  function OneBit(bit: nat): Bits {
    ZeroBlocks()[WordOf(bit) := Mask(bit % WORD_BITS)]
  }

  lemma OneBitOf(bit: nat, p: nat)
    requires p / ELEMENT_BITS == bit / ELEMENT_BITS
    ensures BitOf(OneBit(bit), p) <==> p == bit
  {
    if p % WORD_BITS == bit % WORD_BITS && WordOf(p) == WordOf(bit) {
      SamePlace(p, bit);
    }
  }

  lemma TestBit(b: Bits, bit: nat)
    ensures Apply(And, b[WordOf(bit)], Mask(bit % WORD_BITS)) == Zero() <==> !BitOf(b, bit)
  {
    var w, k := b[WordOf(bit)], bit % WORD_BITS;
    ZeroBits(Apply(And, w, Mask(k)));
    if BitOf(b, bit) {
      assert Apply(And, w, Mask(k))[k];
    }
  }

  // ---------- the steps of the loops over two lists ----------

  lemma StepBoth(op: Op, a: seq<Elem>, b: seq<Elem>, i: nat, j: nat)
    requires i < |a| && j < |b| && a[i].indx == b[j].indx
    ensures var e := Elem(a[i].indx, ApplyBits(op, a[i].bits, b[j].bits));
            Combine(op, a[i..], b[j..]) == Keep(NonZero(e.bits), e) + Combine(op, a[i + 1..], b[j + 1..])
  {
    assert a[i..][1..] == a[i + 1..] && b[j..][1..] == b[j + 1..];
  }

  lemma StepLeft(op: Op, a: seq<Elem>, b: seq<Elem>, i: nat, j: nat)
    requires i < |a| && j <= |b| && (j < |b| ==> a[i].indx < b[j].indx)
    ensures Combine(op, a[i..], b[j..]) == Keep(op != And, a[i]) + Combine(op, a[i + 1..], b[j..])
  {
    assert a[i..][1..] == a[i + 1..];
  }

  lemma StepRight(op: Op, a: seq<Elem>, b: seq<Elem>, i: nat, j: nat)
    requires i <= |a| && j < |b| && (i < |a| ==> b[j].indx < a[i].indx)
    ensures Combine(op, a[i..], b[j..]) == Keep(op == Ior || op == Xor, b[j]) + Combine(op, a[i..], b[j + 1..])
  {
    assert b[j..][1..] == b[j + 1..];
  }

  lemma {:induction false} LeftOver(op: Op, a: seq<Elem>)
    ensures Combine(op, a, []) == if op == And then [] else a
  {
    if a != [] {
      LeftOver(op, a[1..]);
      assert a == [a[0]] + a[1..];
    }
  }

  lemma {:induction false} RightOver(op: Op, b: seq<Elem>)
    ensures Combine(op, [], b) == if op == And || op == AndCompl then [] else b
  {
    if b != [] {
      RightOver(op, b[1..]);
      assert b == [b[0]] + b[1..];
    }
  }

  /** The loops over the words of a block, from the last one down, with the disjunction of
      what they compute. */
  method OpWords(op: Op, x: Bits, y: Bits) returns (r: Bits, ior: Word)
    ensures r == ApplyBits(op, x, y) && (ior == Zero() <==> !NonZero(r))
  {
    hide Apply, Zero;
    r, ior := x, Zero();
    var ix := ELEMENT_WORDS;
    while ix > 0
      invariant 0 <= ix <= ELEMENT_WORDS && |r| == ELEMENT_WORDS
      invariant forall k :: ix <= k < ELEMENT_WORDS ==> r[k] == Apply(op, x[k], y[k])
      invariant ior == Zero() <==> forall k :: ix <= k < ELEMENT_WORDS ==> r[k] == Zero()
    {
      ix := ix - 1;
      var w := Apply(op, x[ix], y[ix]);
      r := r[ix := w];
      IorZero(ior, w);
      ior := Apply(Ior, ior, w);
    }
  }

  lemma IorZero(x: Word, y: Word)
    ensures Apply(Ior, x, y) == Zero() <==> x == Zero() && y == Zero()
  {
    ZeroBits(x);
    ZeroBits(y);
    ZeroBits(Apply(Ior, x, y));
    if x != Zero() {
      var k :| 0 <= k < WORD_BITS && x[k];
      assert Apply(Ior, x, y)[k];
    }
    if y != Zero() {
      var k :| 0 <= k < WORD_BITS && y[k];
      assert Apply(Ior, x, y)[k];
    }
  }

  method SameWords(x: Bits, y: Bits) returns (same: bool)
    ensures same == (x == y)
  {
    var ix := ELEMENT_WORDS;
    while ix > 0
      invariant 0 <= ix <= ELEMENT_WORDS && forall k :: ix <= k < ELEMENT_WORDS ==> x[k] == y[k]
    {
      ix := ix - 1;
      if x[ix] != y[ix] {
        return false;
      }
    }
    same := true;
  }

  /** The loops that write only words that differ and note whether there was one. */
  method UpdateWords(dst: Bits, words: Bits) returns (r: Bits, changed: bool)
    ensures r == words && changed == (dst != words)
  {
    r, changed := dst, false;
    var ix := ELEMENT_WORDS;
    while ix > 0
      invariant 0 <= ix <= ELEMENT_WORDS && |r| == ELEMENT_WORDS
      invariant forall k :: ix <= k < ELEMENT_WORDS ==> r[k] == words[k]
      invariant forall k :: 0 <= k < ix ==> r[k] == dst[k]
      invariant changed <==> exists k :: ix <= k < ELEMENT_WORDS && dst[k] != words[k]
    {
      ix := ix - 1;
      if r[ix] != words[ix] {
        r := r[ix := words[ix]];
        changed := true;
      }
    }
  }

  // ---------- how far a loop has got ----------

  /** The first k blocks of the destination and the merge of what is left are the result. */
  ghost predicate Copying(op: Op, e: seq<Elem>, k: nat, s: seq<Elem>, i: nat, t: seq<Elem>, j: nat) {
    k <= |e| && i <= |s| && j <= |t| && e[..k] + Combine(op, s[i..], t[j..]) == Combine(op, s, t)
  }

  lemma CopyStart(op: Op, e: seq<Elem>, s: seq<Elem>, t: seq<Elem>)
    ensures Copying(op, e, 0, s, 0, t, 0) && InPlace(op, s, 0, s, t, 0)
  {
    hide Combine;
    assert s[0..] == s && t[0..] == t && e[..0] == [] && s[..0] == [];
    assert [] + Combine(op, s, t) == Combine(op, s, t);
  }

  lemma Glue(a: seq<Elem>, b: seq<Elem>, c: seq<Elem>)
    ensures a + (b + c) == a + b + c
  {
  }

  /** A block of the first list copied, or left out by an intersection. */
  lemma CopyLeft(op: Op, e: seq<Elem>, k: nat, s: seq<Elem>, i: nat, t: seq<Elem>, j: nat, e': seq<Elem>, k': nat)
    requires Copying(op, e, k, s, i, t, j) && i < |s| && (j < |t| ==> s[i].indx < t[j].indx)
    requires k' <= |e'| && e'[..k'] == e[..k] + Keep(op != And, s[i])
    ensures Copying(op, e', k', s, i + 1, t, j)
  {
    StepLeft(op, s, t, i, j);
    Glue(e[..k], Keep(op != And, s[i]), Combine(op, s[i + 1..], t[j..]));
  }

  lemma CopyRight(op: Op, e: seq<Elem>, k: nat, s: seq<Elem>, i: nat, t: seq<Elem>, j: nat, e': seq<Elem>, k': nat)
    requires Copying(op, e, k, s, i, t, j) && j < |t| && (i < |s| ==> t[j].indx < s[i].indx)
    requires k' <= |e'| && e'[..k'] == e[..k] + Keep(op == Ior || op == Xor, t[j])
    ensures Copying(op, e', k', s, i, t, j + 1)
  {
    StepRight(op, s, t, i, j);
    Glue(e[..k], Keep(op == Ior || op == Xor, t[j]), Combine(op, s[i..], t[j + 1..]));
  }

  function Merged(op: Op, x: Elem, y: Elem): Elem {
    Elem(x.indx, ApplyBits(op, x.bits, y.bits))
  }

  lemma CopyBoth(op: Op, e: seq<Elem>, k: nat, s: seq<Elem>, i: nat, t: seq<Elem>, j: nat, e': seq<Elem>, k': nat)
    requires Copying(op, e, k, s, i, t, j) && i < |s| && j < |t| && t[j].indx == s[i].indx
    requires k' <= |e'| && e'[..k'] == e[..k] + Keep(NonZero(Merged(op, s[i], t[j]).bits), Merged(op, s[i], t[j]))
    ensures Copying(op, e', k', s, i + 1, t, j + 1)
  {
    StepBoth(op, s, t, i, j);
    var m := Merged(op, s[i], t[j]);
    Glue(e[..k], Keep(NonZero(m.bits), m), Combine(op, s[i + 1..], t[j + 1..]));
  }

  /** The result is complete when the lists that can still contribute are used up. */
  lemma CopyEnds(op: Op, e: seq<Elem>, k: nat, s: seq<Elem>, i: nat, t: seq<Elem>, j: nat)
    requires Copying(op, e, k, s, i, t, j)
    requires match op
             case And => i == |s| || j == |t|
             case AndCompl => i == |s|
             case Ior => i == |s| && j == |t|
             case Xor => i == |s| && j == |t|
    ensures e[..k] == Combine(op, s, t)
  {
    hide Combine;
    if i == |s| {
      assert s[i..] == [];
      RightOver(op, t[j..]);
    } else {
      assert t[j..] == [];
      LeftOver(op, s[i..]);
    }
    assert e[..k] + [] == e[..k];
  }

  /** The same for the forms that change their first operand: of e, the blocks from k on are
      still to be merged. */
  ghost predicate InPlace(op: Op, e: seq<Elem>, k: nat, s: seq<Elem>, t: seq<Elem>, j: nat) {
    k <= |e| && j <= |t| && e[..k] + Combine(op, e[k..], t[j..]) == Combine(op, s, t)
  }

  lemma InPlaceLeft(op: Op, e: seq<Elem>, k: nat, s: seq<Elem>, t: seq<Elem>, j: nat, e': seq<Elem>, k': nat)
    requires InPlace(op, e, k, s, t, j) && k < |e| && (j < |t| ==> e[k].indx < t[j].indx)
    requires k' <= |e'| && e'[..k'] == e[..k] + Keep(op != And, e[k]) && e'[k'..] == e[k + 1..]
    ensures InPlace(op, e', k', s, t, j)
  {
    StepLeft(op, e, t, k, j);
    Glue(e[..k], Keep(op != And, e[k]), Combine(op, e[k + 1..], t[j..]));
  }

  lemma InPlaceRight(op: Op, e: seq<Elem>, k: nat, s: seq<Elem>, t: seq<Elem>, j: nat, e': seq<Elem>, k': nat)
    requires InPlace(op, e, k, s, t, j) && j < |t| && (k < |e| ==> t[j].indx < e[k].indx)
    requires k' <= |e'| && e'[..k'] == e[..k] + Keep(op == Ior || op == Xor, t[j]) && e'[k'..] == e[k..]
    ensures InPlace(op, e', k', s, t, j + 1)
  {
    StepRight(op, e, t, k, j);
    Glue(e[..k], Keep(op == Ior || op == Xor, t[j]), Combine(op, e[k..], t[j + 1..]));
  }

  lemma InPlaceBoth(op: Op, e: seq<Elem>, k: nat, s: seq<Elem>, t: seq<Elem>, j: nat, e': seq<Elem>, k': nat)
    requires InPlace(op, e, k, s, t, j) && k < |e| && j < |t| && e[k].indx == t[j].indx
    requires k' <= |e'| && e'[..k'] == e[..k] + Keep(NonZero(Merged(op, e[k], t[j]).bits), Merged(op, e[k], t[j]))
    requires e'[k'..] == e[k + 1..]
    ensures InPlace(op, e', k', s, t, j + 1)
  {
    StepBoth(op, e, t, k, j);
    var m := Merged(op, e[k], t[j]);
    Glue(e[..k], Keep(NonZero(m.bits), m), Combine(op, e[k + 1..], t[j + 1..]));
  }

  lemma InPlaceEnds(op: Op, e: seq<Elem>, k: nat, s: seq<Elem>, t: seq<Elem>, j: nat)
    requires InPlace(op, e, k, s, t, j) && (j == |t| || (k == |e| && (op == And || op == AndCompl)))
    ensures Combine(op, s, t) == if op == And then e[..k] else e
  {
    hide Combine;
    assert e[..k] + e[k..] == e && e[..k] + [] == e[..k];
    if j == |t| {
      assert t[j..] == [];
      LeftOver(op, e[k..]);
    } else {
      assert e[k..] == [];
      RightOver(op, t[j..]);
    }
  }

  /** The result differs from a list that has another block, or none, at position k. */
  lemma ResultDiffers(op: Op, e: seq<Elem>, k: nat, s: seq<Elem>, i: nat, t: seq<Elem>, j: nat, u: seq<Elem>)
    requires Copying(op, e, k, s, i, t, j) && 0 < k && (k - 1 < |u| ==> u[k - 1] != e[k - 1])
    ensures Combine(op, s, t) != u
  {
    hide Combine;
    assert Combine(op, s, t)[k - 1] == e[k - 1];
  }

  lemma ResultDiffersInPlace(op: Op, e: seq<Elem>, k: nat, s: seq<Elem>, t: seq<Elem>, j: nat, u: seq<Elem>)
    requires InPlace(op, e, k, s, t, j) && 0 < k && (k - 1 < |u| ==> u[k - 1] != e[k - 1])
    ensures Combine(op, s, t) != u
  {
    hide Combine;
    assert Combine(op, s, t)[k - 1] == e[k - 1];
  }

  /** The least element of a set: the lowest bit of the first word with bits in the first
      block. */
  lemma LeastBit(s: seq<Elem>, w: nat, k: nat)
    requires Good(s) && s != [] && w < ELEMENT_WORDS && k < WORD_BITS && s[0].bits[w][k]
    requires (forall v :: 0 <= v < w ==> s[0].bits[v] == Zero()) && (forall i :: 0 <= i < k ==> !s[0].bits[w][i])
    ensures var bit := s[0].indx * ELEMENT_BITS + w * WORD_BITS + k;
            Has(s, bit) && forall p: nat :: p < bit ==> !Has(s, p)
  {
    var bit := s[0].indx * ELEMENT_BITS + w * WORD_BITS + k;
    BitAt(s[0].bits, w, k, s[0].indx);
    FirstBits(s, bit);
    forall p: nat | p < bit ensures !Has(s, p) {
      if p / ELEMENT_BITS == s[0].indx {
        FirstBits(s, p);
        BelowZero(s[0], w, k, p);
      } else {
        TailGood(s);
        hide Good, Has;
        LessIndex(s[0].indx, w, k, p);
        HasAbove(s, p / ELEMENT_BITS, p);
      }
    }
  }

  lemma LessIndex(indx: nat, w: nat, k: nat, p: nat)
    requires w < ELEMENT_WORDS && k < WORD_BITS && p < indx * ELEMENT_BITS + w * WORD_BITS + k
    requires p / ELEMENT_BITS != indx
    ensures p / ELEMENT_BITS < indx
  {
  }

  lemma BelowZero(e: Elem, w: nat, k: nat, p: nat)
    requires w < ELEMENT_WORDS && k < WORD_BITS && p < e.indx * ELEMENT_BITS + w * WORD_BITS + k
    requires p / ELEMENT_BITS == e.indx
    requires (forall v :: 0 <= v < w ==> e.bits[v] == Zero()) && (forall i :: 0 <= i < k ==> !e.bits[w][i])
    ensures !BitOf(e.bits, p)
  {
    var v, i := WordOf(p), p % WORD_BITS;
    assert p == e.indx * ELEMENT_BITS + v * WORD_BITS + i by {
      assert p / WORD_BITS / ELEMENT_WORDS == p / ELEMENT_BITS;
    }
    if v < w {
      assert e.bits[v] == Zero();
    }
  }
}
