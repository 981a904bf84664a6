/** Machine words of 32 bits, lowest bit first (utils/bitmap.c). */
module BitWords {
  const WORD_BITS: nat := 32

  type Word = w: seq<bool> | |w| == WORD_BITS witness seq(WORD_BITS, _ => false)

  function Zero(): Word {
    seq(WORD_BITS, _ => false)
  }

  /** One shifted left by k. */
  function Mask(k: nat): Word
    requires k < WORD_BITS
  {
    seq(WORD_BITS, i => i == k)
  }

  datatype Op = And | AndCompl | Ior | Xor

  predicate ApplyBit(op: Op, x: bool, y: bool) {
    match op
    case And => x && y
    case AndCompl => x && !y
    case Ior => x || y
    case Xor => x != y
  }

  /** The bitwise operators of C: one for all positions. */
  function Apply(op: Op, x: Word, y: Word): Word {
    seq(WORD_BITS, i requires 0 <= i < WORD_BITS => ApplyBit(op, x[i], y[i]))
  }

  function ShiftRight(x: Word, n: nat): Word
    requires n <= WORD_BITS
  {
    x[n..] + seq(n, _ => false)
  }

  /** The word with the n lowest bits set. */
  function Low(n: nat): Word {
    seq(WORD_BITS, i => i < n)
  }

  lemma SameBits(x: Word, y: Word)
    requires forall i :: 0 <= i < WORD_BITS ==> x[i] == y[i]
    ensures x == y
  {
  }

  lemma ZeroBits(x: Word)
    ensures x == Zero() <==> forall i :: 0 <= i < WORD_BITS ==> !x[i]
  {
    if forall i :: 0 <= i < WORD_BITS ==> !x[i] {
      SameBits(x, Zero());
    }
  }

  /** The word is the original one shifted by n places, and nothing was lost. */
  ghost predicate Shifted(w: Word, word: Word, n: nat) {
    n < WORD_BITS && (forall i :: 0 <= i < n ==> !w[i]) && (forall i :: 0 <= i < WORD_BITS - n ==> word[i] == w[n + i])
  }

  lemma ShiftMore(w: Word, word: Word, n: nat, s: nat)
    requires Shifted(w, word, n) && Apply(And, word, Low(s)) == Zero() && n + s < WORD_BITS
    ensures Shifted(w, ShiftRight(word, s), n + s)
  {
    forall i | 0 <= i < n + s ensures !w[i] {
      if i >= n {
        assert !Apply(And, word, Low(s))[i - n];
      }
    }
  }

  lemma LowSet(word: Word, s: nat)
    requires Apply(And, word, Low(s)) != Zero()
    ensures exists i :: 0 <= i < s && i < WORD_BITS && word[i]
  {
    if forall i :: 0 <= i < s && i < WORD_BITS ==> !word[i] {
      SameBits(Apply(And, word, Low(s)), Zero());
    }
  }

  /** The binary search at the end of bitmap_first_set_bit. */
  method LowestBit(w: Word) returns (n: nat)
    requires w != Zero()
    ensures n < WORD_BITS && w[n] && forall i :: 0 <= i < n ==> !w[i]
  {
    hide Apply, Low, Zero, ShiftRight;
    ZeroBits(w);
    var word;
    word, n := Narrow(w, w, 0, 16);
    word, n := Narrow(w, word, n, 8);
    word, n := Narrow(w, word, n, 4);
    word, n := Narrow(w, word, n, 2);
    word, n := Narrow(w, word, n, 1);
  }

  /** One test of the search: if the s lowest bits are zero they are shifted out. */
  method Narrow(ghost w: Word, word0: Word, n0: nat, s: nat) returns (word: Word, n: nat)
    requires Shifted(w, word0, n0) && n0 + 2 * s <= WORD_BITS && 0 < s
    requires exists i :: 0 <= i < 2 * s && word0[i]
    ensures Shifted(w, word, n) && (n == n0 || n == n0 + s) && exists i :: 0 <= i < s && word[i]
  {
    word, n := word0, n0;
    if Apply(And, word, Low(s)) == Zero() {
      ShiftMore(w, word, n, s);
      var i :| 0 <= i < 2 * s && word0[i];
      assert !Apply(And, word, Low(s))[i] || i >= s;
      word, n := ShiftRight(word, s), n + s;
      assert word[i - s];
    } else {
      LowSet(word, s);
    }
  }
}
