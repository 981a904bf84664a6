/** Bitmaps changed in place (utils/bitmap.c). */
module Bitmaps {
  import opened BitWords
  import opened BitmapSet
  import opened BitmapCells

  class Bitmap {
    var cells: Cells
    var first: nat
    var current: nat
    var indx: nat
    var top: nat
    ghost var order: seq<nat>

    /** The list and the cursor hang together; the blocks may be out of order. */
    ghost predicate Shape()
      reads this
    {
      && Linked(cells, first, order) && 0 < top && (forall r :: r in cells ==> 0 < r < top)
      && (current == NULL <==> order == []) && (current != NULL ==> current in cells)
    }

    /** The cached index is the one of the current block. */
    ghost predicate Synced()
      reads this
    {
      current != NULL && current in cells ==> indx == cells[current].indx
    }

    ghost function Elems(): (s: seq<Elem>)
      reads this`cells, this`order
      ensures InCells(cells, order) ==> |s| == |order| && forall i :: 0 <= i < |order| ==>
                s[i] == ElemOf(cells[order[i]])
    {
      if InCells(cells, order) then ElemsOf(cells, order) else []
    }

    ghost predicate Valid()
      reads this
    {
      Shape() && Synced() && Good(Elems())
    }

    ghost predicate Contains(bit: nat)
      reads this`cells, this`order
    {
      Has(Elems(), bit)
    }

    constructor ()
      ensures Valid() && Elems() == []
    {
      cells, first, current, indx, top, order := map[], NULL, NULL, 0, 1, [];
    }

    // ---------- allocation, linking and freeing of blocks ----------

    /** bitmap_element_free; a freed cell is not used again. */
    method FreeElt(elt: nat, ghost i: nat)
      requires Shape() && i < |order| && elt == order[i]
      modifies this
      ensures Shape() && top == old(top) && |order| == |Elems()| && order == Without<nat>(old(order), i)
      ensures Elems() == Without<Elem>(old(Elems()), i)
      ensures old(Synced()) ==> Synced()
    {
      hide Without, Linked, TakenOut, Crossed, NodeOk, Apart;
      ghost var cells0, order0, first0 := cells, order, first;
      ListLinks(cells, first, order, i);
      var next, prev := cells[elt].next, cells[elt].prev;
      InOrder(cells, first, order, current);
      CrossLinks(elt, next, prev, i);
      MoveCursor(elt, next, prev, i);
      cells := cells - {elt};
      FreedCells(cells0, first0, order0, i, cells);
      TakenOutLinked(cells0, cells, first0, order0, i);
      WithoutAt<nat>(order, i);
      order := Without<nat>(order, i);
    }

    /** The neighbours of the block at position i linked to each other. */
    method CrossLinks(elt: nat, next: nat, prev: nat, ghost i: nat)
      requires Linked(cells, first, order) && i < |order| && elt == order[i] && next == RefAt(order, i + 1)
      requires prev == RefAt(order, i - 1)
      modifies this`cells, this`first
      ensures cells.Keys == old(cells).Keys && Crossed(old(cells), order, i, cells)
      ensures (forall r :: r in cells ==> cells[r].indx == old(cells)[r].indx)
      ensures first == if i == 0 then next else old(first)
    {
      hide Linked;
      ListLinks(cells, first, order, i);
      if prev != NULL {
        cells := cells[prev := cells[prev].(next := next)];
      }
      if next != NULL {
        cells := cells[next := cells[next].(prev := prev)];
      }
      if first == elt {
        first := next;
      }
    }

    /** The cursor leaves a block that is freed, rather for the next one. */
    method MoveCursor(elt: nat, next: nat, prev: nat, ghost i: nat)
      requires InCells(cells, order) && Apart(order) && i < |order| && elt == order[i] && next == RefAt(order, i + 1)
      requires prev == RefAt(order, i - 1)
      requires (forall j :: 0 <= j < |order| ==> order[j] != NULL) && current != NULL && current in cells
      requires current in order
      modifies this`current, this`indx
      ensures current == NULL <==> |order| == 1
      ensures current != NULL ==> current in cells && current != elt
      ensures old(Synced()) ==> Synced()
    {
      if current == elt {
        current := if next != NULL then next else prev;
        if current != NULL {
          indx := cells[current].indx;
        }
      }
    }

    /** bitmap_element_allocate. */
    method Allocate() returns (n: nat)
      requires 0 < top
      modifies this`top
      ensures n == old(top) && top == n + 1
    {
      n := top;
      top := top + 1;
    }

    /** bitmap_elt_insert_after; elt is the node before position i. */
    method InsertAfter(elt: nat, ghost i: nat) returns (n: nat)
      requires Shape() && i <= |order| && elt == RefAt(order, i - 1) && (elt == NULL <==> i == 0)
      modifies this
      ensures Shape() && i < |order| == |Elems()| && order[i] == n && n != NULL && order == With<nat>(old(order), i, n)
      ensures n !in old(cells)
      ensures |Elems()| == |old(Elems())| + 1 && Elems() == With<Elem>(old(Elems()), i, Elems()[i])
      ensures current == if old(current) == NULL then n else old(current)
      ensures indx == old(indx) && old(Synced()) && old(current) != NULL ==> Synced()
    {
      hide With, Linked, NodeOk, Apart;
      ghost var cells0, order0, first0 := cells, order, first;
      ListLinks(cells, first, order, i);
      n := Allocate();
      var zero: Bits := seq(ELEMENT_WORDS, _ => Zero());
      var node := Cell(NULL, NULL, 0, zero);
      if elt == NULL {
        if current == NULL {
          current := n;
        }
        node := node.(next := first);
        if node.next != NULL {
          cells := cells[node.next := cells[node.next].(prev := n)];
        }
        first := n;
        node := node.(prev := NULL);
      } else {
        node := node.(next := cells[elt].next);
        if node.next != NULL {
          cells := cells[node.next := cells[node.next].(prev := n)];
        }
        cells := cells[elt := cells[elt].(next := n)];
        node := node.(prev := elt);
      }
      cells := cells[n := node];
      NewCells(cells0, first0, order0, i, n, cells);
      PutInLinked(cells0, cells, first0, order0, i, n);
      WithAt<nat>(order, i, n);
      WithAt<Elem>(ElemsOf(cells0, order0), i, ElemOf(cells[n]));
      order := With<nat>(order, i, n);
    }

    /** bitmap_element_link: the search for the place starts at the cursor, which moves to the
        new block. */
    method LinkElt(n: nat, e: Elem)
      requires Valid() && n !in cells && 0 < n < top && NonZero(e.bits)
      requires forall j :: 0 <= j < |Elems()| ==> Elems()[j].indx != e.indx
      modifies this
      ensures Valid() && top == old(top)
      ensures forall bit: nat :: Contains(bit) <==>
                old(Contains(bit)) || (e.indx == bit / ELEMENT_BITS && BitOf(e.bits, bit))
    {
      hide With, Linked, NodeOk, Apart, NonZero, Has, BitOf, Good;
      ghost var elems0 := Elems();
      var next, prev;
      ghost var i;
      next, prev, i := PlaceOf(e.indx);
      BlockAdded(elems0, i, e);
      WithDef<Elem>(elems0, i, e);
      PutBetween(n, e, next, prev, i);
      current := n;
      indx := e.indx;
    }

    /** The links of bitmap_element_link. */
    /** The search of bitmap_element_link, from the cursor in either direction. */
    method PlaceOf(index: nat) returns (next: nat, prev: nat, ghost i: nat)
      requires Valid() && forall j :: 0 <= j < |Elems()| ==> Elems()[j].indx != index
      ensures Linked(cells, first, order) && i <= |order| == |Elems()|
      ensures next == RefAt(order, i) && prev == RefAt(order, i - 1)
      ensures (i > 0 ==> Elems()[i - 1].indx < index) && (i < |Elems()| ==> index < Elems()[i].indx)
    {
      hide Linked, NodeOk, Good;
      i := 0;
      next, prev := NULL, NULL;
      ListLinks(cells, first, order, 0);
      LinkedCells(cells, first, order);
      if first != NULL {
        CursorAt(cells, first, order, current);
        ghost var k: nat :| k < |order| && order[k] == current;
        if index < indx {
          next, prev, i := PlaceBefore(cells, current, index, first, order, k);
        } else {
          next, prev, i := PlaceAfter(cells, current, index, first, order, k);
        }
      }
    }

    method PutBetween(n: nat, e: Elem, next: nat, prev: nat, ghost i: nat)
      requires Linked(cells, first, order) && i <= |order| && n !in cells && n != NULL && next == RefAt(order, i)
      requires prev == RefAt(order, i - 1)
      modifies this`cells, this`first, this`order
      ensures Linked(cells, first, order) && order == With<nat>(old(order), i, n) && order != [] && n in cells
      ensures cells[n].indx == e.indx
      ensures cells.Keys == old(cells).Keys + {n} && Elems() == With<Elem>(old(Elems()), i, e)
      ensures forall r :: r in old(cells) ==> cells[r].indx == old(cells)[r].indx
    {
      hide With, Linked, NodeOk, Apart, PutIn;
      ghost var cells0, order0, first0 := cells, order, first;
      ListLinks(cells, first, order, i);
      if prev != NULL {
        cells := cells[prev := cells[prev].(next := n)];
      } else {
        first := n;
      }
      if next != NULL {
        cells := cells[next := cells[next].(prev := n)];
      }
      cells := cells[n := Cell(next, prev, e.indx, e.bits)];
      NewLinksHold(cells0, first0, order0, i, n, cells);
      PutInLinked(cells0, cells, first0, order0, i, n);
      WithAt<nat>(order, i, n);
      order := With<nat>(order, i, n);
    }

    /** bitmap_find_bit: walks from the cursor and leaves it where it stops. */
    method FindBit(bit: nat) returns (elt: nat, ghost i: nat)
      requires Valid()
      modifies this`current, this`indx
      ensures Valid()
      ensures elt != NULL ==>
                i < |order| && elt == order[i] && elt in cells && i < |Elems()|
                  && Elems()[i] == Elem(bit / ELEMENT_BITS, cells[elt].bits)
      ensures elt == NULL ==> forall j :: 0 <= j < |Elems()| ==> Elems()[j].indx != bit / ELEMENT_BITS
    {
      hide Linked, NodeOk, NonZero, Good, Apart;
      var index := bit / ELEMENT_BITS;
      LinkedCells(cells, first, order);
      if current == NULL {
        return NULL, 0;
      }
      CursorAt(cells, first, order, current);
      i :| i < |order| && order[i] == current;
      if indx == index {
        return current, i;
      }
      elt, i := Walk(index, i);
      MoveTo(elt);
      if cells[elt].indx != index {
        elt := NULL;
      }
    }

    method Walk(index: nat, ghost k: nat) returns (elt: nat, ghost i: nat)
      requires Valid() && k < |order| && order[k] == current && indx != index
      ensures i < |order| && i < |Elems()| && elt == order[i] && elt in cells && Elems()[i] == ElemOf(cells[elt])
      ensures cells[elt].indx != index ==> forall j :: 0 <= j < |Elems()| ==> Elems()[j].indx != index
    {
      hide Linked, NodeOk, NonZero, Good, Apart;
      LinkedCells(cells, first, order);
      if indx > index {
        elt, i := WalkBack(cells, current, index, first, order, k);
      } else {
        elt, i := WalkOn(cells, current, index, first, order, k);
      }
      if cells[elt].indx != index {
        MissHere(cells, order, i, index);
      }
    }

    method MoveTo(elt: nat)
      requires Valid() && elt in cells
      modifies this`current, this`indx
      ensures Valid()
    {
      hide Linked, Good;
      InOrder(cells, first, order, elt);
      current := elt;
      indx := cells[elt].indx;
    }

    /** Words written into the block at position i. */
    method WriteBits(elt: nat, b: Bits, ghost i: nat)
      requires Shape() && i < |order| && elt == order[i]
      modifies this`cells
      ensures Shape() && (old(Synced()) ==> Synced()) && |order| == |Elems()|
      ensures elt in old(cells) && elt in cells && cells[elt] == old(cells)[elt].(bits := b)
      ensures i < |old(Elems())| && Elems() == old(Elems())[i := Elem(old(Elems())[i].indx, b)]
    {
      hide Linked;
      ListLinks(cells, first, order, i);
      WrittenLinked(cells, first, order, i, Elem(cells[elt].indx, b));
      assert cells[elt].(indx := cells[elt].indx, bits := b) == cells[elt].(bits := b);
      cells := cells[elt := cells[elt].(bits := b)];
    }

    /** bitmap_set_bit: true exactly if the bit was not set before. */
    method SetBit(bit: nat) returns (changed: bool)
      requires Valid()
      modifies this
      ensures Valid() && changed == !old(Contains(bit))
      ensures forall p: nat :: Contains(p) <==> old(Contains(p)) || p == bit
    {
      hide Linked, Good, Has, BitOf, NonZero, Apart, NodeOk, Touch, OneBit;
      ghost var s := Elems();
      var elt;
      ghost var i;
      elt, i := FindBit(bit);
      if elt == NULL {
        NoBlock(s, bit);
        var n := Allocate();
        OneBitOf(bit, bit);
        BitMakesNonZero(OneBit(bit), bit);
        LinkElt(n, Elem(bit / ELEMENT_BITS, OneBit(bit)));
        forall p: nat | p / ELEMENT_BITS == bit / ELEMENT_BITS ensures BitOf(OneBit(bit), p) <==> p == bit {
          OneBitOf(bit, p);
        }
        changed := true;
      } else {
        var b := cells[elt].bits;
        TestBit(b, bit);
        HasAt(s, i, bit);
        changed := Apply(And, b[WordOf(bit)], Mask(bit % WORD_BITS)) == Zero();
        if changed {
          SetOrClear(b, bit, bit);
          BitMakesNonZero(Touch(Ior, b, bit), bit);
          BlockChanged(s, i, Touch(Ior, b, bit));
          WriteBits(elt, Touch(Ior, b, bit), i);
          forall p: nat ensures Contains(p) <==> Has(s, p) || p == bit {
            TouchedHas(s, i, Ior, bit, p);
          }
        }
      }
    }

    /** bitmap_clear_bit; a block that becomes zero is freed. */
    method ClearBit(bit: nat)
      requires Valid()
      modifies this
      ensures Valid()
      ensures forall p: nat :: Contains(p) <==> old(Contains(p)) && p != bit
    {
      hide Linked, Good, Has, BitOf, NonZero, Apart, NodeOk, Touch;
      ghost var s := Elems();
      var elt;
      ghost var i;
      elt, i := FindBit(bit);
      if elt == NULL {
        NoBlock(s, bit);
        return;
      }
      var b := Touch(AndCompl, cells[elt].bits, bit);
      BlockChanged(s, i, b);
      WriteBits(elt, b, i);
      forall p: nat ensures Has(Elems(), p) <==> Has(s, p) && p != bit {
        TouchedHas(s, i, AndCompl, bit, p);
      }
      if !NonZero(b) {
        BlockDropped(s, i, b);
        DroppedSame(s, i, b);
        FreeElt(elt, i);
      }
    }

    /** bitmap_bit_p. */
    method BitP(bit: nat) returns (r: bool)
      requires Valid()
      modifies this`current, this`indx
      ensures Valid() && r == Contains(bit)
    {
      hide Linked, Good, Has, NonZero, Apart, NodeOk;
      ghost var s := Elems();
      var elt;
      ghost var i;
      elt, i := FindBit(bit);
      if elt == NULL {
        NoBlock(s, bit);
        return false;
      }
      HasAt(s, i, bit);
      r := cells[elt].bits[bit / WORD_BITS % ELEMENT_WORDS][bit % WORD_BITS];
    }

    // ---------- whole bitmaps ----------

    /** bitmap_clear; the cached index is left as it is. */
    method Clear()
      requires Valid()
      modifies this
      ensures Valid() && Elems() == []
    {
      cells, first, current, order := map[], NULL, NULL, [];
    }

    /** bitmap_copy. */
    method Copy(from: Bitmap)
      requires Valid() && from.Valid() && from != this
      modifies this
      ensures Valid() && Elems() == from.Elems()
    {
      hide Linked, Good, NodeOk, Apart, With;
      ghost var s := from.Elems();
      Clear();
      var elt, prev := from.first, NULL;
      ghost var k: nat := 0;
      from.Begin();
      LinkedCells(cells, first, order);
      while elt != NULL
        invariant Shape() && Synced() && from.Valid() && from.Elems() == s
        invariant k <= |s| && elt == RefAt(from.order, k) && |order| == |Elems()| == k && Elems() == s[..k]
        invariant prev == RefAt(order, k - 1) && (prev == NULL <==> order == [])
        decreases |s| - k
      {
        from.Cells(k);
        var n := Append(ElemOf(from.cells[elt]), prev);
        assert s[..k + 1] == s[..k] + [s[k]];
        prev, elt, k := n, from.cells[elt].next, k + 1;
      }
      from.Cells(k);
      assert s[..k] == s;
    }

    /** A block linked behind the last one. */
    method Append(e: Elem, prev: nat) returns (n: nat)
      requires Shape() && Synced() && |order| == |Elems()| && prev == RefAt(order, |order| - 1)
      requires (prev == NULL <==> order == [])
      modifies this
      ensures Shape() && Synced() && |order| == |Elems()| == |old(order)| + 1 && Elems() == old(Elems()) + [e]
      ensures n == RefAt(order, |order| - 1) && n != NULL
    {
      hide Linked, NodeOk, Apart, With;
      ghost var s, o, k := Elems(), order, |order|;
      n := Allocate();
      PutBetween(n, e, NULL, prev, k);
      WithAt<nat>(o, k, n);
      WithAt<Elem>(s, k, e);
      LinkedCells(cells, first, order);
      if prev == NULL {
        current, indx := n, e.indx;
      }
    }

    /** bitmap_equal_p. */
    method EqualP(b: Bitmap) returns (r: bool)
      requires Valid() && b.Valid()
      ensures r == SameSet(Elems(), b.Elems())
    {
      hide Linked, Good, Valid, Shape, SameSet;
      ghost var s, t := Elems(), b.Elems();
      Begin();
      b.Begin();
      ChangedSet(s, t);
      var aElt, bElt := first, b.first;
      ghost var i: nat := 0;
      while aElt != NULL && bElt != NULL
        invariant i <= |s| && i <= |t| && aElt == RefAt(order, i) && bElt == RefAt(b.order, i) && s[..i] == t[..i]
        decreases |s| - i
      {
        Cells(i);
        b.Cells(i);
        if cells[aElt].indx != b.cells[bElt].indx {
          return false;
        }
        var same := SameWords(cells[aElt].bits, b.cells[bElt].bits);
        if !same {
          return false;
        }
        aElt, bElt, i := cells[aElt].next, b.cells[bElt].next, i + 1;
      }
      Cells(i);
      b.Cells(i);
      assert s[..|s|] == s && t[..|t|] == t;
      r := aElt == NULL && bElt == NULL;
    }

    /** bitmap_first_set_bit: the least element of a set that is not empty. */
    method FirstSetBit() returns (bit: nat)
      requires Valid() && Elems() != []
      ensures Contains(bit) && forall p: nat :: p < bit ==> !Contains(p)
    {
      hide Linked, Has;
      Begin();
      Cells(0);
      var elt := first;
      var ix := 0;
      assert NonZero(Elems()[0].bits);
      while cells[elt].bits[ix] == Zero()
        invariant 0 <= ix < ELEMENT_WORDS && forall v :: 0 <= v < ix ==> cells[elt].bits[v] == Zero()
        decreases ELEMENT_WORDS - ix
      {
        ix := ix + 1;
      }
      var low := LowestBit(cells[elt].bits[ix]);
      LeastBit(Elems(), ix, low);
      bit := cells[elt].indx * ELEMENT_BITS + ix * WORD_BITS + low;
    }

    // ---------- the loops of the set operations ----------

    /** bitmap_elt_clear_from. */
    method ClearFrom(elt0: nat, ghost k: nat)
      requires Shape() && k <= |order| && elt0 == RefAt(order, k)
      modifies this
      ensures Shape() && k <= |old(Elems())| && Elems() == old(Elems())[..k] && (old(Synced()) ==> Synced())
    {
      hide Linked, Without, Synced;
      var elt := elt0;
      LinkedCells(cells, first, order);
      ListLinks(cells, first, order, k);
      while elt != NULL
        invariant Shape() && k <= |order| && elt == RefAt(order, k) && (k < |order| ==> elt != NULL)
        invariant |Elems()| == |order| && Elems()[..k] == old(Elems())[..k] && (old(Synced()) ==> Synced())
        decreases |order|
      {
        ListLinks(cells, first, order, k);
        var next := cells[elt].next;
        ghost var o, s := order, Elems();
        FreeElt(elt, k);
        WithoutAt<nat>(o, k);
        WithoutAt<Elem>(s, k);
        assert Elems()[..k] == s[..k];
        ListLinks(cells, first, order, k);
        LinkedCells(cells, first, order);
        elt := next;
      }
      assert Elems()[..k] == Elems();
    }

    /** The block at position k of the destination written, a new one if there is none. */
    method Emit(dst: nat, prev: nat, e: Elem, ghost k: nat) returns (d: nat)
      requires Shape() && k <= |order| && dst == RefAt(order, k) && prev == RefAt(order, k - 1)
      modifies this
      ensures Shape() && k < |order| == |Elems()| && d == order[k] && d in cells && cells[d].next == RefAt(order, k + 1)
      ensures prev == RefAt(order, k - 1)
      ensures k <= |old(Elems())| && Elems() == if k < |old(Elems())| then old(Elems())[k := e] else old(Elems()) + [e]
    {
      hide Linked, With, Synced;
      LinkedCells(cells, first, order);
      ListLinks(cells, first, order, k);
      ghost var s, o := Elems(), order;
      d := dst;
      if d == NULL {
        d := InsertAfter(prev, k);
        WithAt<nat>(o, k, d);
        WithAt<Elem>(s, k, Elems()[k]);
        LinkedCells(cells, first, order);
      }
      ListLinks(cells, first, order, k);
      hide Shape;
      WriteElem(d, e, k);
      RestCell(k);
    }

    method Sync()
      requires Shape()
      modifies this`indx
      ensures Shape() && Synced()
    {
      if current != NULL {
        indx := cells[current].indx;
      }
    }

    /** bitmap_and. */
    method AndOf(a: Bitmap, b: Bitmap)
      requires Valid() && a.Valid() && b.Valid() && a != this && b != this
      modifies this
      ensures Valid() && Elems() == Combine(And, a.Elems(), b.Elems())
      ensures forall bit: nat :: Contains(bit) <==> ApplyBit(And, a.Contains(bit), b.Contains(bit))
    {
      hide Linked, Valid, Shape, Good, Combine, Keep, NonZero, ApplyBits, Has, Copying, Merged, SameSet, RefAt;
      RefNone(order);
      ghost var s, t := a.Elems(), b.Elems();
      Begin();
      a.Begin();
      b.Begin();
      CopyStart(And, Elems(), s, t);
      var aElt, bElt, dst, prev := a.first, b.first, first, NULL;
      ghost var i: nat, j: nat, k: nat := 0, 0, 0;
      while aElt != NULL && bElt != NULL
        invariant Shape() && a.Valid() && b.Valid() && a.Elems() == s && b.Elems() == t
        invariant i <= |s| && aElt == RefAt(a.order, i) && j <= |t| && bElt == RefAt(b.order, j)
        invariant k <= |Elems()| == |order| && dst == RefAt(order, k) && prev == RefAt(order, k - 1)
        invariant Copying(And, Elems(), k, s, i, t, j)
        decreases |s| - i + |t| - j
      {
        a.Cells(i);
        b.Cells(j);
        if a.cells[aElt].indx < b.cells[bElt].indx {
          CopySkip(And, Elems(), k, s, i, t, j, true);
          aElt, i := a.cells[aElt].next, i + 1;
        } else if b.cells[bElt].indx < a.cells[aElt].indx {
          CopySkip(And, Elems(), k, s, i, t, j, false);
          bElt, j := b.cells[bElt].next, j + 1;
        } else {
          dst, prev, k := EmitTwo(And, a.cells[aElt], b.cells[bElt], dst, prev, k, s, i, t, j);
          aElt, i := a.cells[aElt].next, i + 1;
          bElt, j := b.cells[bElt].next, j + 1;
        }
      }
      a.Cells(i);
      b.Cells(j);
      CopyEnds(And, Elems(), k, s, i, t, j);
      Finish(dst, k, And, s, t);
      SetMeaning(And, s, t);
    }

    /** bitmap_and_compl. */
    method AndComplOf(a: Bitmap, b: Bitmap)
      requires Valid() && a.Valid() && b.Valid() && a != this && b != this
      modifies this
      ensures Valid() && Elems() == Combine(AndCompl, a.Elems(), b.Elems())
      ensures forall bit: nat :: Contains(bit) <==> ApplyBit(AndCompl, a.Contains(bit), b.Contains(bit))
    {
      hide Linked, Valid, Shape, Good, Combine, Keep, NonZero, ApplyBits, Has, Copying, Merged, SameSet, RefAt;
      RefNone(order);
      ghost var s, t := a.Elems(), b.Elems();
      Begin();
      a.Begin();
      b.Begin();
      CopyStart(AndCompl, Elems(), s, t);
      var aElt, bElt, dst, prev := a.first, b.first, first, NULL;
      ghost var i: nat, j: nat, k: nat := 0, 0, 0;
      while aElt != NULL
        invariant Shape() && a.Valid() && b.Valid() && a.Elems() == s && b.Elems() == t
        invariant i <= |s| && aElt == RefAt(a.order, i) && j <= |t| && bElt == RefAt(b.order, j)
        invariant k <= |Elems()| == |order| && dst == RefAt(order, k) && prev == RefAt(order, k - 1)
        invariant Copying(AndCompl, Elems(), k, s, i, t, j)
        decreases |s| - i + |t| - j
      {
        a.Cells(i);
        b.Cells(j);
        if bElt == NULL || a.cells[aElt].indx < b.cells[bElt].indx {
          dst, prev, k := EmitOne(AndCompl, ElemOf(a.cells[aElt]), dst, prev, k, s, i, t, j, i + 1, j);
          aElt, i := a.cells[aElt].next, i + 1;
        } else if b.cells[bElt].indx < a.cells[aElt].indx {
          CopySkip(AndCompl, Elems(), k, s, i, t, j, false);
          bElt, j := b.cells[bElt].next, j + 1;
        } else {
          dst, prev, k := EmitTwo(AndCompl, a.cells[aElt], b.cells[bElt], dst, prev, k, s, i, t, j);
          aElt, i := a.cells[aElt].next, i + 1;
          bElt, j := b.cells[bElt].next, j + 1;
        }
      }
      a.Cells(i);
      b.Cells(j);
      CopyEnds(AndCompl, Elems(), k, s, i, t, j);
      Finish(dst, k, AndCompl, s, t);
      SetMeaning(AndCompl, s, t);
    }

    /** bitmap_xor. */
    method XorOf(a: Bitmap, b: Bitmap)
      requires Valid() && a.Valid() && b.Valid() && a != this && b != this
      modifies this
      ensures Valid() && Elems() == Combine(Xor, a.Elems(), b.Elems())
      ensures forall bit: nat :: Contains(bit) <==> ApplyBit(Xor, a.Contains(bit), b.Contains(bit))
    {
      hide Linked, Valid, Shape, Good, Combine, Keep, NonZero, ApplyBits, Has, Copying, Merged, SameSet, RefAt;
      RefNone(order);
      ghost var s, t := a.Elems(), b.Elems();
      Begin();
      a.Begin();
      b.Begin();
      CopyStart(Xor, Elems(), s, t);
      var aElt, bElt, dst, prev := a.first, b.first, first, NULL;
      ghost var i: nat, j: nat, k: nat := 0, 0, 0;
      while aElt != NULL || bElt != NULL
        invariant Shape() && a.Valid() && b.Valid() && a.Elems() == s && b.Elems() == t
        invariant i <= |s| && aElt == RefAt(a.order, i) && j <= |t| && bElt == RefAt(b.order, j)
        invariant k <= |Elems()| == |order| && dst == RefAt(order, k) && prev == RefAt(order, k - 1)
        invariant Copying(Xor, Elems(), k, s, i, t, j)
        decreases |s| - i + |t| - j
      {
        a.Cells(i);
        b.Cells(j);
        if aElt != NULL && bElt != NULL && a.cells[aElt].indx == b.cells[bElt].indx {
          dst, prev, k := EmitTwo(Xor, a.cells[aElt], b.cells[bElt], dst, prev, k, s, i, t, j);
          aElt, i := a.cells[aElt].next, i + 1;
          bElt, j := b.cells[bElt].next, j + 1;
        } else {
          var src;
          ghost var i0, j0 := i, j;
          if bElt == NULL || (aElt != NULL && a.cells[aElt].indx < b.cells[bElt].indx) {
            src := ElemOf(a.cells[aElt]);
            aElt, i := a.cells[aElt].next, i + 1;
          } else {
            src := ElemOf(b.cells[bElt]);
            bElt, j := b.cells[bElt].next, j + 1;
          }
          dst, prev, k := EmitOne(Xor, src, dst, prev, k, s, i0, t, j0, i, j);
        }
      }
      a.Cells(i);
      b.Cells(j);
      CopyEnds(Xor, Elems(), k, s, i, t, j);
      Finish(dst, k, Xor, s, t);
      SetMeaning(Xor, s, t);
    }

    /** bitmap_ior: true exactly if the destination has changed. */
    method IorOf(a: Bitmap, b: Bitmap) returns (changed: bool)
      requires Valid() && a.Valid() && b.Valid() && a != this && b != this
      modifies this
      ensures Valid() && Elems() == Combine(Ior, a.Elems(), b.Elems())
      ensures forall bit: nat :: Contains(bit) <==> ApplyBit(Ior, a.Contains(bit), b.Contains(bit))
      ensures changed == !SameSet(old(Elems()), Elems())
    {
      hide Linked, Valid, Shape, Good, Combine, Keep, NonZero, ApplyBits, Has, Copying, Merged, SameSet, RefAt;
      RefNone(order);
      ghost var s, t := a.Elems(), b.Elems();
      Begin();
      a.Begin();
      b.Begin();
      CopyStart(Ior, Elems(), s, t);
      a.Cells(0);
      b.Cells(0);
      var aElt, bElt, dst, prev := a.first, b.first, first, NULL;
      ghost var i: nat, j: nat, k: nat := 0, 0, 0;
      ghost var u := Elems();
      changed := false;
      while aElt != NULL || bElt != NULL
        invariant Shape() && a.Valid() && b.Valid() && a.Elems() == s && b.Elems() == t
        invariant i <= |s| && aElt == RefAt(a.order, i) && j <= |t| && bElt == RefAt(b.order, j)
        invariant k <= |Elems()| == |order| && dst == RefAt(order, k) && prev == RefAt(order, k - 1)
        invariant Copying(Ior, Elems(), k, s, i, t, j)
        invariant (aElt == NULL <==> i == |s|) && (bElt == NULL <==> j == |t|)
        invariant if changed then Combine(Ior, s, t) != u else Elems() == u
        decreases |s| - i + |t| - j
      {
        ghost var i0, j0 := i, j;
        var src;
        src, aElt, bElt, i, j := a.NextOfUnion(b, aElt, bElt, i, j);
        dst, prev, changed := IorStep(src, dst, prev, changed, k, u, s, i0, t, j0, i, j);
        k := k + 1;
      }
      a.Cells(i);
      b.Cells(j);
      CopyEnds(Ior, Elems(), k, s, i, t, j);
      RestCell(k);
      if dst != NULL {
        changed := true;
      }
      Finish(dst, k, Ior, s, t);
      SetMeaning(Ior, s, t);
      ChangedSet(u, Elems());
    }

    /** A block computed from two: kept and passed only if it is not zero. */
    method EmitBoth(op: Op, x: Cell, y: Cell, dst0: nat, prev0: nat, ghost k0: nat)
      returns (dst: nat, prev: nat, ghost k: nat)
      requires Shape() && k0 <= |order| == |Elems()| && dst0 == RefAt(order, k0) && prev0 == RefAt(order, k0 - 1)
      modifies this
      ensures Shape() && k <= |order| == |Elems()| && dst == RefAt(order, k) && prev == RefAt(order, k - 1)
      ensures var m := Merged(op, ElemOf(x), ElemOf(y)); Elems()[..k] == old(Elems())[..k0] + Keep(NonZero(m.bits), m)
    {
      hide Linked, NonZero, ApplyBits, Shape;
      ghost var s := Elems();
      var r, ior := OpWords(op, x.bits, y.bits);
      var d := Emit(dst0, prev0, Elem(x.indx, r), k0);
      if ior != Zero() {
        prev, dst, k := d, cells[d].next, k0 + 1;
        assert Elems()[..k] == s[..k0] + [Elem(x.indx, r)];
      } else {
        prev, dst, k := prev0, d, k0;
        assert Elems()[..k] == s[..k0] + [];
      }
    }

    method EmitTwo(op: Op, x: Cell, y: Cell, dst0: nat, prev0: nat, ghost k0: nat, ghost s: seq<Elem>, ghost i: nat,
                   ghost t: seq<Elem>, ghost j: nat)
      returns (dst: nat, prev: nat, ghost k: nat)
      requires Shape() && k0 <= |order| == |Elems()| && dst0 == RefAt(order, k0) && prev0 == RefAt(order, k0 - 1)
      requires Copying(op, Elems(), k0, s, i, t, j)
      requires i < |s| && j < |t| && s[i] == ElemOf(x) && t[j] == ElemOf(y) && x.indx == y.indx
      modifies this
      ensures Shape() && k <= |order| == |Elems()| && dst == RefAt(order, k) && prev == RefAt(order, k - 1)
      ensures Copying(op, Elems(), k, s, i + 1, t, j + 1)
    {
      hide Linked, Shape, Copying, Keep, Merged;
      ghost var e := Elems();
      dst, prev, k := EmitBoth(op, x, y, dst0, prev0, k0);
      CopyBoth(op, e, k0, s, i, t, j, Elems(), k);
    }

    method EmitOne(op: Op, x: Elem, dst0: nat, prev0: nat, ghost k0: nat, ghost s: seq<Elem>, ghost i: nat,
                   ghost t: seq<Elem>, ghost j: nat, ghost i': nat, ghost j': nat)
      returns (dst: nat, prev: nat, ghost k: nat)
      requires Shape() && k0 <= |order| == |Elems()| && dst0 == RefAt(order, k0) && prev0 == RefAt(order, k0 - 1)
      requires Copying(op, Elems(), k0, s, i, t, j)
      requires FromOne(s, i, t, j, x, i', j') && (op == Ior || op == Xor || (op == AndCompl && i' == i + 1))
      modifies this
      ensures Shape() && k <= |order| == |Elems()| && dst == RefAt(order, k) && prev == RefAt(order, k - 1)
      ensures Copying(op, Elems(), k, s, i', t, j')
    {
      hide Linked, Shape, Copying;
      ghost var e := Elems();
      dst, prev, k := EmitCopy(x, dst0, prev0, k0);
      CopyOne(op, e, k0, s, i, t, j, Elems(), k, x, i', j');
    }

    /** A block copied to position k. */
    method EmitCopy(e: Elem, dst0: nat, prev0: nat, ghost k0: nat) returns (dst: nat, prev: nat, ghost k: nat)
      requires Shape() && k0 <= |order| == |Elems()| && dst0 == RefAt(order, k0) && prev0 == RefAt(order, k0 - 1)
      modifies this
      ensures Shape() && k <= |order| == |Elems()| && dst == RefAt(order, k) && prev == RefAt(order, k - 1)
      ensures Elems()[..k] == old(Elems())[..k0] + [e]
    {
      hide Linked, Shape;
      ghost var s := Elems();
      var d := Emit(dst0, prev0, e, k0);
      prev, dst, k := d, cells[d].next, k0 + 1;
      assert Elems()[..k] == s[..k0] + [e];
    }

    /** The block that bitmap_ior takes next: united from both lists, or the one of the lower
        index. */
    method NextOfUnion(b: Bitmap, aElt: nat, bElt: nat, ghost i: nat, ghost j: nat)
      returns (src: Elem, aNext: nat, bNext: nat, ghost i': nat, ghost j': nat)
      requires Valid() && b.Valid() && i <= |Elems()| && j <= |b.Elems()| && aElt == RefAt(order, i)
      requires bElt == RefAt(b.order, j)
      requires aElt != NULL || bElt != NULL
      ensures FromOne(Elems(), i, b.Elems(), j, src, i', j') || FromBoth(Elems(), i, b.Elems(), j, src, i', j')
      ensures i <= i' <= |Elems()| && j <= j' <= |b.Elems()| && i + j < i' + j' && aNext == RefAt(order, i')
      ensures bNext == RefAt(b.order, j')
      ensures (aNext == NULL <==> i' == |Elems()|) && (bNext == NULL <==> j' == |b.Elems()|)
    {
      hide Linked, Valid, Shape, Good, NonZero, ApplyBits, Merged;
      Cells(i);
      b.Cells(j);
      aNext, bNext, i', j' := aElt, bElt, i, j;
      if aElt != NULL && bElt != NULL && cells[aElt].indx == b.cells[bElt].indx {
        Begin();
        BothIorKept(Elems(), b.Elems(), i, j);
        src := Merged(Ior, ElemOf(cells[aElt]), ElemOf(b.cells[bElt]));
        aNext, i' := cells[aElt].next, i + 1;
        bNext, j' := b.cells[bElt].next, j + 1;
      } else if bElt == NULL || (aElt != NULL && cells[aElt].indx < b.cells[bElt].indx) {
        src := ElemOf(cells[aElt]);
        aNext, i' := cells[aElt].next, i + 1;
      } else {
        src := ElemOf(b.cells[bElt]);
        bNext, j' := b.cells[bElt].next, j + 1;
      }
      Cells(i');
      b.Cells(j');
    }

    /** One step of bitmap_ior, whichever list the block comes from. */
    method IorStep(e: Elem, dst0: nat, prev0: nat, changed0: bool, ghost k: nat, ghost u: seq<Elem>,
                   ghost s: seq<Elem>, ghost i: nat, ghost t: seq<Elem>, ghost j: nat, ghost i': nat, ghost j': nat)
      returns (dst: nat, prev: nat, changed: bool)
      requires Shape() && k <= |order| == |Elems()| && dst0 == RefAt(order, k) && prev0 == RefAt(order, k - 1)
      requires Copying(Ior, Elems(), k, s, i, t, j)
      requires (FromOne(s, i, t, j, e, i', j') || FromBoth(s, i, t, j, e, i', j'))
      requires if changed0 then Combine(Ior, s, t) != u else Elems() == u
      modifies this
      ensures Shape() && k < |order| == |Elems()| && dst == RefAt(order, k + 1) && prev == RefAt(order, k)
      ensures Copying(Ior, Elems(), k + 1, s, i', t, j')
      ensures if changed then Combine(Ior, s, t) != u else Elems() == u
    {
      hide Linked, Shape, Combine, Keep, NonZero, ApplyBits, Copying, Merged, FromOne, FromBoth;
      ghost var e0 := Elems();
      dst, prev, changed := EmitIor(e, dst0, prev0, changed0, k, u);
      if FromOne(s, i, t, j, e, i', j') {
        CopyOne(Ior, e0, k, s, i, t, j, Elems(), k + 1, e, i', j');
      } else {
        CopyUnion(e0, k, s, i, t, j, Elems(), k + 1, e, i', j');
      }
      if changed && !changed0 {
        ResultDiffers(Ior, Elems(), k + 1, s, i', t, j', u);
      }
    }

    /** A block of a union at position k: while nothing has changed only differing words are
        written. */
    method EmitIor(e: Elem, dst0: nat, prev0: nat, changed0: bool, ghost k: nat, ghost u: seq<Elem>)
      returns (dst: nat, prev: nat, changed: bool)
      requires Shape() && k <= |order| == |Elems()| && dst0 == RefAt(order, k) && prev0 == RefAt(order, k - 1)
      requires !changed0 ==> Elems() == u
      modifies this
      ensures Shape() && k < |order| == |Elems()| && dst == RefAt(order, k + 1) && prev == RefAt(order, k)
      ensures Elems()[..k + 1] == old(Elems())[..k] + [e] && Elems()[k] == e
      ensures changed0 ==> changed
      ensures !changed ==> Elems() == u
      ensures changed && !changed0 && k < |u| ==> u[k] != e
    {
      hide Linked, Shape;
      ghost var s := Elems();
      changed := changed0;
      RestCell(k);
      if !changed && dst0 != NULL && cells[dst0].indx == e.indx {
        var b, differs := UpdateWords(cells[dst0].bits, e.bits);
        WriteBits(dst0, b, k);
        changed := differs;
        prev := dst0;
        RestCell(k);
        dst := cells[dst0].next;
        assert Elems() == s[k := e];
      } else {
        changed := true;
        prev := Emit(dst0, prev0, e, k);
        dst := cells[prev].next;
      }
      assert Elems()[..k + 1] == s[..k] + [e];
    }

    method Finish(dst: nat, ghost k: nat, ghost op: Op, ghost s: seq<Elem>, ghost t: seq<Elem>)
      requires Shape() && k <= |order| == |Elems()| && dst == RefAt(order, k) && Good(s) && Good(t)
      requires Elems()[..k] == Combine(op, s, t)
      modifies this
      ensures Valid() && Elems() == Combine(op, s, t) && Good(Elems())
    {
      hide Linked, Good, Combine;
      ClearFrom(dst, k);
      Sync();
      CombineInOrder(op, s, t);
    }

    /** The set that the list of a result stands for. */
    lemma SetMeaning(op: Op, s: seq<Elem>, t: seq<Elem>)
      requires Good(s) && Good(t) && Elems() == Combine(op, s, t)
      ensures forall bit: nat :: Contains(bit) <==> ApplyBit(op, Has(s, bit), Has(t, bit))
    {
      hide Good, Combine, Has, ApplyBit;
      forall bit: nat ensures Contains(bit) <==> ApplyBit(op, Has(s, bit), Has(t, bit)) {
        CombineMeaning(op, s, t, bit);
      }
    }

    lemma Done()
      requires Shape() && Synced() && Good(Elems())
      ensures Valid()
    {
    }

    lemma RestCell(k: nat)
      requires Shape() && k <= |order|
      ensures |Elems()| == |order| && (RefAt(order, k) != NULL <==> k < |order|)
      ensures k < |order| ==>
                RefAt(order, k) == order[k] && order[k] in cells && cells[order[k]].next == RefAt(order, k + 1)
                  && Elems()[k] == ElemOf(cells[order[k]])
    {
      ListLinks(cells, first, order, k);
    }

    // ---------- the forms that change their first operand ----------

    /** The loops of bitmap_and_into and bitmap_xor_into when both operands are one bitmap: both
        cursors stand on the same block all the time. */
    method WithItself(op: Op)
      requires Valid() && (op == And || op == Xor)
      modifies this
      ensures Valid() && Elems() == Combine(op, old(Elems()), old(Elems()))
    {
      hide Linked, Shape, Good, Combine, Keep, NonZero, ApplyBits, Has, Synced, InPlace, Merged, RefAt;
      ghost var s := Elems();
      Begin();
      CopyStart(op, s, s, s);
      var elt := first;
      ghost var j: nat, k: nat := 0, 0;
      while elt != NULL
        invariant Shape() && Synced() && j <= |s| && k <= |Elems()| == |order| && elt == RefAt(order, k)
        invariant InPlace(op, Elems(), k, s, s, j) && Elems()[k..] == s[j..]
        decreases |s| - j
      {
        RestCell(k);
        TailsAlike(Elems(), k, s, j);
        elt, k := SelfStep(op, elt, k, s, j);
        j := j + 1;
      }
      RestCell(k);
      TailsAlike(Elems(), k, s, j);
      InPlaceEnds(op, Elems(), k, s, s, j);
      CombineInOrder(op, s, s);
      Done();
    }

    method SelfStep(op: Op, elt: nat, ghost k0: nat, ghost s: seq<Elem>, ghost j: nat) returns (next: nat, ghost k: nat)
      requires Shape() && Synced() && k0 < |order| == |Elems()| && elt == order[k0] && elt in cells
      requires ElemOf(cells[elt]) == Elems()[k0]
      requires j < |s| && InPlace(op, Elems(), k0, s, s, j) && Elems()[k0..] == s[j..] && Elems()[k0] == s[j]
      modifies this
      ensures Shape() && Synced() && k <= |order| == |Elems()| && next == RefAt(order, k)
      ensures InPlace(op, Elems(), k, s, s, j + 1) && Elems()[k..] == s[j + 1..]
    {
      hide Linked, Shape, Good, Combine, Keep, NonZero, ApplyBits, Has, Synced, InPlace, Merged, RefAt;
      ghost var e := Elems();
      var kept;
      next, kept, k := MergeHere(op, elt, cells[elt], k0);
      InPlaceBoth(op, e, k0, s, s, j, Elems(), k);
      assert e[k0..][1..] == e[k0 + 1..] && s[j..][1..] == s[j + 1..];
    }

    /** The loop of bitmap_ior_into for that case: no word differs, nothing is written. */
    method UnitedWithItself() returns (changed: bool)
      requires Valid()
      modifies this
      ensures Valid() && Elems() == old(Elems()) == Combine(Ior, old(Elems()), old(Elems())) && !changed
    {
      hide Linked, Shape, Combine, Keep, ApplyBits, Has, Synced, RefAt;
      ghost var s := Elems();
      Begin();
      CombineSelf(s);
      GoodNonZero(s);
      changed := false;
      var elt := first;
      ghost var k: nat := 0;
      while elt != NULL
        invariant Shape() && Elems() == s && k <= |s| == |order| && elt == RefAt(order, k) && !changed
        decreases |s| - k
      {
        RestCell(k);
        MergedSelf(s[k]);
        changed := MergeIor(elt, cells[elt], changed, k, s);
        RestCell(k);
        elt, k := cells[elt].next, k + 1;
      }
      Sync();
    }

    /** bitmap_and_into. */
    method AndInto(b: Bitmap)
      requires Valid() && b.Valid()
      modifies this
      ensures Valid() && Elems() == Combine(And, old(Elems()), old(b.Elems()))
      ensures forall bit: nat :: Contains(bit) <==> ApplyBit(And, old(Contains(bit)), old(b.Contains(bit)))
    {
      hide Linked, Valid, Shape, Good, Combine, Keep, NonZero, ApplyBits, Has, Synced, InPlace, Merged, SameSet,
           NonZeroFrom, ChangeKnown;
      ghost var s, t := Elems(), b.Elems();
      Begin();
      b.Begin();
      if b == this {
        WithItself(And);
        SetMeaning(And, s, t);
        return;
      }
      CopyStart(And, s, s, t);
      var aElt, bElt := first, b.first;
      ghost var j: nat, k: nat := 0, 0;
      while aElt != NULL && bElt != NULL
        invariant Shape() && Synced() && b.Valid() && b.Elems() == t && j <= |t| && bElt == RefAt(b.order, j)
        invariant k <= |Elems()| == |order| && aElt == RefAt(order, k) && InPlace(And, Elems(), k, s, t, j)
        decreases |t| - j, |Elems()| - k
      {
        RestCell(k);
        b.Cells(j);
        ghost var e, n := Elems(), k;
        if cells[aElt].indx < b.cells[bElt].indx {
          aElt := Drop(aElt, k);
          KeepNothing(e[k]);
          InPlaceLeft(And, e, n, s, t, j, Elems(), k);
        } else if b.cells[bElt].indx < cells[aElt].indx {
          InPlaceSkip(And, Elems(), k, s, t, j);
          bElt, j := b.cells[bElt].next, j + 1;
        } else {
          var kept;
          aElt, kept, k := MergeHere(And, aElt, b.cells[bElt], k);
          InPlaceBoth(And, e, n, s, t, j, Elems(), k);
          bElt, j := b.cells[bElt].next, j + 1;
        }
      }
      RestCell(k);
      b.Cells(j);
      InPlaceEnds(And, Elems(), k, s, t, j);
      ClearFrom(aElt, k);
      CombineInOrder(And, s, t);
      Done();
      SetMeaning(And, s, t);
    }

    /** bitmap_and_compl_into. */
    method AndComplInto(b: Bitmap)
      requires Valid() && b.Valid() && b != this
      modifies this
      ensures Valid() && Elems() == Combine(AndCompl, old(Elems()), old(b.Elems()))
      ensures forall bit: nat :: Contains(bit) <==> ApplyBit(AndCompl, old(Contains(bit)), old(b.Contains(bit)))
    {
      hide Linked, Valid, Shape, Good, Combine, Keep, NonZero, ApplyBits, Has, Synced, InPlace, Merged, SameSet,
           NonZeroFrom, ChangeKnown;
      ghost var s, t := Elems(), b.Elems();
      Begin();
      b.Begin();
      CopyStart(AndCompl, s, s, t);
      var aElt, bElt := first, b.first;
      ghost var j: nat, k: nat := 0, 0;
      while aElt != NULL && bElt != NULL
        invariant Shape() && Synced() && b.Valid() && b.Elems() == t && j <= |t| && bElt == RefAt(b.order, j)
        invariant k <= |Elems()| == |order| && aElt == RefAt(order, k) && InPlace(AndCompl, Elems(), k, s, t, j)
        decreases |t| - j, |Elems()| - k
      {
        RestCell(k);
        b.Cells(j);
        ghost var e, n := Elems(), k;
        if cells[aElt].indx < b.cells[bElt].indx {
          InPlacePass(AndCompl, Elems(), k, s, t, j);
          aElt, k := cells[aElt].next, k + 1;
        } else if b.cells[bElt].indx < cells[aElt].indx {
          InPlaceSkip(AndCompl, Elems(), k, s, t, j);
          bElt, j := b.cells[bElt].next, j + 1;
        } else {
          var kept;
          aElt, kept, k := MergeHere(AndCompl, aElt, b.cells[bElt], k);
          InPlaceBoth(AndCompl, e, n, s, t, j, Elems(), k);
          bElt, j := b.cells[bElt].next, j + 1;
        }
      }
      RestCell(k);
      b.Cells(j);
      InPlaceEnds(AndCompl, Elems(), k, s, t, j);
      CombineInOrder(AndCompl, s, t);
      Done();
      SetMeaning(AndCompl, s, t);
    }

    /** bitmap_xor_into. */
    method XorInto(b: Bitmap)
      requires Valid() && b.Valid()
      modifies this
      ensures Valid() && Elems() == Combine(Xor, old(Elems()), old(b.Elems()))
      ensures forall bit: nat :: Contains(bit) <==> ApplyBit(Xor, old(Contains(bit)), old(b.Contains(bit)))
    {
      hide Linked, Valid, Shape, Good, Combine, Keep, NonZero, ApplyBits, Has, Synced, InPlace, Merged, SameSet,
           NonZeroFrom, ChangeKnown;
      ghost var s, t := Elems(), b.Elems();
      Begin();
      b.Begin();
      if b == this {
        WithItself(Xor);
        SetMeaning(Xor, s, t);
        return;
      }
      CopyStart(Xor, s, s, t);
      var aElt, bElt, prev := first, b.first, NULL;
      ghost var j: nat, k: nat := 0, 0;
      while bElt != NULL
        invariant Shape() && b.Valid() && b.Elems() == t && j <= |t| && bElt == RefAt(b.order, j)
        invariant k <= |Elems()| == |order| && aElt == RefAt(order, k) && prev == RefAt(order, k - 1)
        invariant InPlace(Xor, Elems(), k, s, t, j)
        decreases |t| - j, |Elems()| - k
      {
        RestCell(k);
        b.Cells(j);
        ghost var e, n := Elems(), k;
        if aElt == NULL || b.cells[bElt].indx < cells[aElt].indx {
          prev := XorInsert(prev, ElemOf(b.cells[bElt]), aElt, k, s, t, j);
          k := k + 1;
          bElt, j := b.cells[bElt].next, j + 1;
        } else if cells[aElt].indx < b.cells[bElt].indx {
          InPlacePass(Xor, Elems(), k, s, t, j);
          prev := aElt;
          aElt, k := cells[aElt].next, k + 1;
        } else {
          var elt, kept := aElt, false;
          aElt, kept, k := MergeHere(Xor, elt, b.cells[bElt], k);
          if kept {
            prev := elt;
          }
          InPlaceBoth(Xor, e, n, s, t, j, Elems(), k);
          bElt, j := b.cells[bElt].next, j + 1;
        }
      }
      b.Cells(j);
      EndInPlace(Xor, k, s, t, j);
      SetMeaning(Xor, s, t);
    }

    method EndInPlace(ghost op: Op, ghost k: nat, ghost s: seq<Elem>, ghost t: seq<Elem>, ghost j: nat)
      requires Shape() && Good(s) && Good(t) && InPlace(op, Elems(), k, s, t, j) && op != And && j == |t|
      modifies this`indx
      ensures Valid() && Good(Elems()) && Elems() == Combine(op, s, t)
    {
      hide Linked, Good, Combine, InPlace;
      InPlaceEnds(op, Elems(), k, s, t, j);
      Sync();
      CombineInOrder(op, s, t);
    }

    /** One round of bitmap_ior_into. */
    method IorIntoStep(b: Bitmap, aElt0: nat, bElt0: nat, prev0: nat, changed0: bool, ghost k0: nat, ghost s: seq<Elem>,
                       ghost j0: nat)
      returns (aElt: nat, bElt: nat, prev: nat, changed: bool, ghost k: nat, ghost j: nat)
      requires Shape() && b.Valid() && b != this && j0 <= |b.Elems()| && bElt0 == RefAt(b.order, j0) && bElt0 != NULL
      requires k0 <= |Elems()| == |order| && aElt0 == RefAt(order, k0) && prev0 == RefAt(order, k0 - 1)
      requires InPlace(Ior, Elems(), k0, s, b.Elems(), j0)
      requires ChangeKnown(changed0, Combine(Ior, s, b.Elems()), s, Elems()) && NonZeroFrom(Elems(), k0)
      modifies this
      ensures Shape() && j <= |b.Elems()| && bElt == RefAt(b.order, j)
      ensures k <= |Elems()| == |order| && aElt == RefAt(order, k) && prev == RefAt(order, k - 1)
      ensures InPlace(Ior, Elems(), k, s, b.Elems(), j)
      ensures ChangeKnown(changed, Combine(Ior, s, b.Elems()), s, Elems()) && NonZeroFrom(Elems(), k)
      ensures j > j0 || (j == j0 && |Elems()| - k < |old(Elems())| - k0)
    {
      hide Linked, Valid, Shape, Good, Combine, NonZero, Synced, InPlace, NonZeroFrom, ChangeKnown;
      RestCell(k0);
      b.Cells(j0);
      aElt, bElt, prev, changed, k, j := aElt0, bElt0, prev0, changed0, k0, j0;
      ghost var t := b.Elems();
      if aElt == NULL || b.cells[bElt].indx < cells[aElt].indx {
        prev := IorInsert(prev, ElemOf(b.cells[bElt]), aElt, changed, k, s, t, j);
        k := k + 1;
        bElt, j := b.cells[bElt].next, j + 1;
        changed := true;
      } else if cells[aElt].indx < b.cells[bElt].indx {
        NonZeroTail(Elems(), k);
        InPlacePass(Ior, Elems(), k, s, t, j);
        prev := aElt;
        aElt, k := cells[aElt].next, k + 1;
      } else {
        changed := IorMerge(aElt, b.cells[bElt], changed, k, s, t, j);
        prev := aElt;
        aElt, k := cells[aElt].next, k + 1;
        bElt, j := b.cells[bElt].next, j + 1;
      }
    }

    /** bitmap_ior_into: true exactly if the set has changed. */
    method IorInto(b: Bitmap) returns (changed: bool)
      requires Valid() && b.Valid()
      modifies this
      ensures Valid() && Elems() == Combine(Ior, old(Elems()), old(b.Elems()))
      ensures forall bit: nat :: Contains(bit) <==> ApplyBit(Ior, old(Contains(bit)), old(b.Contains(bit)))
      ensures changed == !SameSet(old(Elems()), Elems())
    {
      hide Linked, Valid, Shape, Good, Combine, Keep, NonZero, ApplyBits, Has, Synced, InPlace, Merged, SameSet,
           NonZeroFrom, ChangeKnown, RefAt;
      RefNone(order);
      ghost var s, t := Elems(), b.Elems();
      Begin();
      b.Begin();
      if b == this {
        changed := UnitedWithItself();
        ChangedSet(s, s);
        SetMeaning(Ior, s, t);
        return;
      }
      CopyStart(Ior, s, s, t);
      var aElt, bElt, prev := first, b.first, NULL;
      ghost var j: nat, k: nat := 0, 0;
      changed := false;
      GoodNonZero(s);
      NoChange(Combine(Ior, s, t), s);
      while bElt != NULL
        invariant Shape() && b.Valid() && b.Elems() == t && j <= |t| && bElt == RefAt(b.order, j)
        invariant k <= |Elems()| == |order| && aElt == RefAt(order, k) && prev == RefAt(order, k - 1)
        invariant InPlace(Ior, Elems(), k, s, t, j)
        invariant ChangeKnown(changed, Combine(Ior, s, t), s, Elems()) && NonZeroFrom(Elems(), k)
        decreases |t| - j, |Elems()| - k
      {
        aElt, bElt, prev, changed, k, j := IorIntoStep(b, aElt, bElt, prev, changed, k, s, j);
      }
      b.Cells(j);
      EndInPlace(Ior, k, s, t, j);
      ChangeFound(changed, s, Elems());
      SetMeaning(Ior, s, t);
    }

    /** The block at position k freed. */
    method Drop(elt: nat, ghost k: nat) returns (next: nat)
      requires Shape() && k < |order| == |Elems()| && elt == order[k]
      modifies this
      ensures Shape() && k <= |order| == |Elems()| == |old(Elems())| - 1 && next == RefAt(order, k)
      ensures (old(Synced()) ==> Synced())
      ensures Elems()[..k] == old(Elems())[..k] + [] && Elems()[k..] == old(Elems())[k + 1..]
      ensures RefAt(order, k - 1) == old(RefAt(order, k - 1))
    {
      hide Linked, Without, Synced, Shape;
      RestCell(k);
      next := cells[elt].next;
      ghost var s, o := Elems(), order;
      FreeElt(elt, k);
      WithoutAt<Elem>(s, k);
      WithoutAt<nat>(o, k);
      assert Elems()[..k] == s[..k] + [] && Elems()[k..] == s[k + 1..];
    }

    /** The block at position k combined with one of the same index, and freed if it is zero. */
    method MergeHere(op: Op, elt: nat, y: Cell, ghost k0: nat) returns (next: nat, kept: bool, ghost k: nat)
      requires Shape() && k0 < |order| == |Elems()| && elt == order[k0]
      modifies this
      ensures Shape() && k <= |order| == |Elems()| && next == RefAt(order, k) && (old(Synced()) ==> Synced())
      ensures Elems()[k..] == old(Elems())[k0 + 1..]
      ensures var m := Merged(op, old(Elems())[k0], ElemOf(y));
                Elems()[..k] == old(Elems())[..k0] + Keep(NonZero(m.bits), m)
      ensures RefAt(order, k - 1) == if kept then elt else old(RefAt(order, k0 - 1))
    {
      hide Linked, NonZero, ApplyBits, Shape, Synced;
      ghost var s := Elems();
      RestCell(k0);
      var r, ior := OpWords(op, cells[elt].bits, y.bits);
      WriteBits(elt, r, k0);
      RestCell(k0);
      next, k, kept := cells[elt].next, k0, ior != Zero();
      if kept {
        k := k0 + 1;
        assert Elems()[..k] == s[..k0] + [Elem(s[k0].indx, r)];
      } else {
        next := Drop(elt, k0);
      }
    }

    /** A copy of a block put in before position k. */
    method InsertCopy(prev: nat, x: Elem, elt: nat, ghost k: nat) returns (n: nat)
      requires Shape() && k <= |order| == |Elems()| && elt == RefAt(order, k) && prev == RefAt(order, k - 1)
      modifies this
      ensures Shape() && k < |order| == |Elems()| && elt == RefAt(order, k + 1) && n == RefAt(order, k)
      ensures Elems()[k + 1..] == old(Elems())[k..] && Elems()[..k + 1] == old(Elems())[..k] + [x] && Elems()[k] == x
    {
      hide Linked, With, Shape, Synced;
      ghost var s, o := Elems(), order;
      RestCell(k);
      BackCell(k);
      n := InsertAfter(prev, k);
      WithAt<nat>(o, k, n);
      WithAt<Elem>(s, k, Elems()[k]);
      RestCell(k);
      WriteElem(n, x, k);
      assert Elems()[k + 1..] == s[k..];
      assert Elems()[..k + 1] == s[..k] + [x];
    }

    method WriteElem(d: nat, e: Elem, ghost k: nat)
      requires Shape() && k < |order| == |Elems()| && d == order[k]
      modifies this`cells
      ensures Shape() && |order| == |Elems()| && Elems() == old(Elems())[k := e]
    {
      hide Linked;
      RestCell(k);
      WrittenLinked(cells, first, order, k, e);
      cells := cells[d := cells[d].(indx := e.indx, bits := e.bits)];
    }

    /** The block at position k united with one of the same index; only differing words count
        as a change. */
    method MergeIor(elt: nat, y: Cell, changed0: bool, ghost k: nat, ghost u: seq<Elem>) returns (changed: bool)
      requires Shape() && k < |order| == |Elems()| && elt == order[k] && NonZero(Elems()[k].bits)
      requires !changed0 ==> Elems() == u
      modifies this
      ensures Shape() && order == old(order) && |order| == |Elems()| && elt in cells
      ensures cells[elt].next == RefAt(order, k + 1)
      ensures var m := Merged(Ior, old(Elems())[k], ElemOf(y));
              && Elems()[..k + 1] == old(Elems())[..k] + Keep(NonZero(m.bits), m) && Elems()[k] == m
              && (changed && !changed0 && k < |u| ==> u[k] != m)
      ensures Elems()[k + 1..] == old(Elems())[k + 1..] && (changed0 ==> changed) && (!changed ==> Elems() == u)
    {
      hide Linked, NonZero, ApplyBits, Shape, Synced;
      ghost var s := Elems();
      RestCell(k);
      var x := cells[elt].bits;
      IorNonZero(x, y.bits);
      changed := changed0;
      if changed {
        var r, ior := OpWords(Ior, x, y.bits);
        WriteBits(elt, r, k);
      } else {
        var b, differs := UpdateWords(x, ApplyBits(Ior, x, y.bits));
        WriteBits(elt, b, k);
        changed := differs;
      }
      RestCell(k);
      ghost var m := Merged(Ior, s[k], ElemOf(y));
      assert Elems() == s[k := m];
      assert Elems()[..k + 1] == s[..k] + [m] && Elems()[k + 1..] == s[k + 1..];
    }

    method XorInsert(prev: nat, x: Elem, elt: nat, ghost k: nat, ghost s: seq<Elem>, ghost t: seq<Elem>, ghost j: nat)
      returns (n: nat)
      requires Shape() && k <= |order| == |Elems()| && elt == RefAt(order, k) && prev == RefAt(order, k - 1)
      requires InPlace(Xor, Elems(), k, s, t, j) && j < |t| && t[j] == x && (k < |Elems()| ==> x.indx < Elems()[k].indx)
      modifies this
      ensures Shape() && k < |order| == |Elems()| && elt == RefAt(order, k + 1) && n == RefAt(order, k)
      ensures InPlace(Xor, Elems(), k + 1, s, t, j + 1) && |Elems()| == |old(Elems())| + 1
    {
      hide Linked, Shape, Synced, InPlace, Combine, Keep, NonZero;
      ghost var e := Elems();
      n := InsertCopy(prev, x, elt, k);
      KeepEither(t[j]);
      InPlaceRight(Xor, e, k, s, t, j, Elems(), k + 1);
    }

    /** The steps of bitmap_ior_into that change the list or may change a block of it. */
    method IorInsert(prev: nat, x: Elem, elt: nat, ghost changed0: bool, ghost k: nat, ghost s: seq<Elem>,
                     ghost t: seq<Elem>, ghost j: nat)
      returns (n: nat)
      requires Shape() && k <= |order| == |Elems()| && elt == RefAt(order, k) && prev == RefAt(order, k - 1)
      requires InPlace(Ior, Elems(), k, s, t, j) && j < |t| && t[j] == x && (k < |Elems()| ==> x.indx < Elems()[k].indx)
      requires NonZeroFrom(Elems(), k)
      requires ChangeKnown(changed0, Combine(Ior, s, t), s, Elems())
      modifies this
      ensures Shape() && k < |order| == |Elems()| && elt == RefAt(order, k + 1) && n == RefAt(order, k)
      ensures InPlace(Ior, Elems(), k + 1, s, t, j + 1) && NonZeroFrom(Elems(), k + 1)
      ensures ChangeKnown(true, Combine(Ior, s, t), s, Elems())
    {
      hide Linked, Shape, Synced, InPlace, NonZeroFrom, Combine, Keep, NonZero;
      ghost var e := Elems();
      n := InsertCopy(prev, x, elt, k);
      NonZeroKept(e, k, Elems(), k + 1);
      KeepEither(t[j]);
      InPlaceRight(Ior, e, k, s, t, j, Elems(), k + 1);
      if !changed0 {
        ResultDiffersInPlace(Ior, Elems(), k + 1, s, t, j + 1, s);
      }
    }

    method IorMerge(elt: nat, y: Cell, changed0: bool, ghost k: nat, ghost s: seq<Elem>, ghost t: seq<Elem>,
                    ghost j: nat)
      returns (changed: bool)
      requires Shape() && k < |order| == |Elems()| && elt == order[k]
      requires InPlace(Ior, Elems(), k, s, t, j) && j < |t| && t[j] == ElemOf(y) && y.indx == Elems()[k].indx
      requires NonZeroFrom(Elems(), k)
      requires ChangeKnown(changed0, Combine(Ior, s, t), s, Elems())
      modifies this
      ensures Shape() && order == old(order) && |order| == |Elems()| && elt in cells
      ensures cells[elt].next == RefAt(order, k + 1)
      ensures InPlace(Ior, Elems(), k + 1, s, t, j + 1) && NonZeroFrom(Elems(), k + 1)
      ensures ChangeKnown(changed, Combine(Ior, s, t), s, Elems())
    {
      hide Linked, Shape, Synced, InPlace, NonZeroFrom, Combine, Keep, NonZero, Merged;
      ghost var e := Elems();
      NonZeroTail(e, k);
      changed := MergeIor(elt, y, changed0, k, s);
      NonZeroKept(e, k + 1, Elems(), k + 1);
      InPlaceBoth(Ior, e, k, s, t, j, Elems(), k + 1);
      if changed && !changed0 {
        ResultDiffersInPlace(Ior, Elems(), k + 1, s, t, j + 1, s);
      }
    }

    lemma BackCell(k: nat)
      requires Shape() && k <= |order|
      ensures RefAt(order, k - 1) == NULL <==> k == 0
    {
      if k > 0 {
        ListLinks(cells, first, order, k - 1);
      }
    }

    /** What a loop over the list knows at position i. */
    lemma Cells(i: nat)
      requires Valid() && i <= |Elems()|
      ensures |Elems()| == |order| && (RefAt(order, i) == NULL <==> i == |order|)
      ensures i < |order| ==>
                RefAt(order, i) == order[i] && order[i] in cells && cells[order[i]].next == RefAt(order, i + 1)
                  && Elems()[i] == ElemOf(cells[order[i]])
    {
      LinkedCells(cells, first, order);
      ListLinks(cells, first, order, i);
    }

    lemma Begin()
      requires Valid()
      ensures Shape() && Synced() && |Elems()| == |order| && first == RefAt(order, 0) && Good(Elems())
    {
      ListLinks(cells, first, order, 0);
    }
  }

  lemma TouchedHas(s: seq<Elem>, i: nat, op: Op, bit: nat, p: nat)
    requires Good(s) && i < |s| && s[i].indx == bit / ELEMENT_BITS && (op == Ior || op == AndCompl)
    ensures Has(s[i := Elem(s[i].indx, Touch(op, s[i].bits, bit))], p) <==>
              if op == Ior then Has(s, p) || p == bit else Has(s, p) && p != bit
  {
    hide Good, Has, BitOf, NonZero, Touch;
    BlockChanged(s, i, Touch(op, s[i].bits, bit));
    if p / ELEMENT_BITS == bit / ELEMENT_BITS {
      SetOrClear(s[i].bits, bit, p);
      HasAt(s, i, p);
    }
  }

  /** Dropping the block makes no difference once it is zero. */
  lemma DroppedSame(s: seq<Elem>, i: nat, b: Bits)
    requires Good(s) && i < |s| && !NonZero(b)
    ensures var t := s[i := Elem(s[i].indx, b)];
            && Good(Without<Elem>(t, i)) && forall p: nat :: Has(Without<Elem>(t, i), p) <==> Has(t, p)
  {
    var t := s[i := Elem(s[i].indx, b)];
    assert Without<Elem>(t, i) == s[..i] + s[i + 1..];
    hide Good, Has, BitOf, NonZero, Without;
    BlockDropped(s, i, b);
    BlockChanged(s, i, b);
    forall p: nat ensures Has(Without<Elem>(t, i), p) <==> Has(t, p) {
      ZeroBlock(b, p);
    }
  }

  ghost predicate NonZeroFrom(s: seq<Elem>, k: nat) {
    forall i :: k <= i < |s| ==> NonZero(s[i].bits)
  }

  lemma GoodNonZero(s: seq<Elem>)
    requires Good(s)
    ensures NonZeroFrom(s, 0)
  {
  }

  /** The blocks that are left are the same. */
  lemma NonZeroKept(s: seq<Elem>, k: nat, t: seq<Elem>, n: nat)
    requires k <= |s| && n <= |t| && NonZeroFrom(s, k) && t[n..] == s[k..]
    ensures NonZeroFrom(t, n)
  {
    forall i | n <= i < |t| ensures NonZero(t[i].bits) {
      assert t[i] == t[n..][i - n] && s[k + (i - n)] == s[k..][i - n];
    }
  }

  lemma NonZeroTail(s: seq<Elem>, k: nat)
    requires k < |s| && NonZeroFrom(s, k)
    ensures NonZero(s[k].bits) && NonZeroFrom(s, k + 1)
  {
  }

  lemma IorNonZero(x: Bits, y: Bits)
    requires NonZero(x)
    ensures NonZero(ApplyBits(Ior, x, y))
  {
    var w: nat :| w < ELEMENT_WORDS && x[w] != Zero();
    IorZero(x[w], y[w]);
    assert ApplyBits(Ior, x, y)[w] != Zero();
  }

  lemma BothIorKept(s: seq<Elem>, t: seq<Elem>, i: nat, j: nat)
    requires Good(s) && i < |s| && j < |t|
    ensures var m := Merged(Ior, s[i], t[j]); NonZero(m.bits)
  {
    IorNonZero(s[i].bits, t[j].bits);
  }

  lemma KeepEither(e: Elem)
    ensures Keep(true, e) == [e]
  {
  }

  lemma KeepNothing(e: Elem)
    ensures Keep(false, e) == []
  {
  }

  lemma InPlacePass(op: Op, e: seq<Elem>, k: nat, s: seq<Elem>, t: seq<Elem>, j: nat)
    requires InPlace(op, e, k, s, t, j) && k < |e| && (j < |t| ==> e[k].indx < t[j].indx) && op != And
    ensures InPlace(op, e, k + 1, s, t, j)
  {
    hide InPlace;
    PassOver(e, k);
    KeepEither(e[k]);
    InPlaceLeft(op, e, k, s, t, j, e, k + 1);
  }

  lemma InPlaceSkip(op: Op, e: seq<Elem>, k: nat, s: seq<Elem>, t: seq<Elem>, j: nat)
    requires InPlace(op, e, k, s, t, j) && j < |t| && (k < |e| ==> t[j].indx < e[k].indx)
    requires (op == And || op == AndCompl) && k <= |e|
    ensures InPlace(op, e, k, s, t, j + 1)
  {
    hide InPlace;
    KeepNothing(t[j]);
    assert e[..k] + [] == e[..k];
    InPlaceRight(op, e, k, s, t, j, e, k);
  }

  /** A block left out of the result. */
  lemma CopySkip(op: Op, e: seq<Elem>, k: nat, s: seq<Elem>, i: nat, t: seq<Elem>, j: nat, left: bool)
    requires Copying(op, e, k, s, i, t, j) && k <= |e|
    requires if left then op == And && i < |s| && (j < |t| ==> s[i].indx < t[j].indx)
             else (op == And || op == AndCompl) && j < |t| && (i < |s| ==> t[j].indx < s[i].indx)
    ensures Copying(op, e, k, s, if left then i + 1 else i, t, if left then j else j + 1)
  {
    hide Copying;
    assert e[..k] + [] == e[..k];
    if left {
      KeepNothing(s[i]);
      CopyLeft(op, e, k, s, i, t, j, e, k);
    } else {
      KeepNothing(t[j]);
      CopyRight(op, e, k, s, i, t, j, e, k);
    }
  }

  /** The next block of a union or an exclusive disjunction comes from one list only. */
  ghost predicate FromOne(s: seq<Elem>, i: nat, t: seq<Elem>, j: nat, e: Elem, i': nat, j': nat) {
    || (i < |s| && j <= |t| && (j < |t| ==> s[i].indx < t[j].indx) && e == s[i] && i' == i + 1 && j' == j)
    || (j < |t| && i <= |s| && (i < |s| ==> t[j].indx < s[i].indx) && e == t[j] && i' == i && j' == j + 1)
  }

  /** The next block of a union is united from two. */
  ghost predicate FromBoth(s: seq<Elem>, i: nat, t: seq<Elem>, j: nat, e: Elem, i': nat, j': nat) {
    i < |s| && j < |t| && s[i].indx == t[j].indx && e == Merged(Ior, s[i], t[j]) && i' == i + 1 && j' == j + 1
      && NonZero(e.bits)
  }

  lemma CopyOne(op: Op, e: seq<Elem>, k: nat, s: seq<Elem>, i: nat, t: seq<Elem>, j: nat, e': seq<Elem>, k': nat,
                x: Elem, i': nat, j': nat)
    requires Copying(op, e, k, s, i, t, j) && FromOne(s, i, t, j, x, i', j')
    requires (op == Ior || op == Xor || (op == AndCompl && i' == i + 1))
    requires k' <= |e'| && e'[..k'] == e[..k] + [x]
    ensures Copying(op, e', k', s, i', t, j')
  {
    hide Copying;
    if i' == i + 1 {
      CopyLeft(op, e, k, s, i, t, j, e', k');
    } else {
      CopyRight(op, e, k, s, i, t, j, e', k');
    }
  }

  lemma CopyUnion(e: seq<Elem>, k: nat, s: seq<Elem>, i: nat, t: seq<Elem>, j: nat, e': seq<Elem>, k': nat, x: Elem,
                  i': nat, j': nat)
    requires Copying(Ior, e, k, s, i, t, j) && FromBoth(s, i, t, j, x, i', j')
    requires k' <= |e'| && e'[..k'] == e[..k] + [x]
    ensures Copying(Ior, e', k', s, i', t, j')
  {
    hide Copying;
    CopyBoth(Ior, e, k, s, i, t, j, e', k');
  }

  lemma PassOver(s: seq<Elem>, k: nat)
    requires k < |s|
    ensures s[..k + 1] == s[..k] + [s[k]]
  {
  }

  /** What the flag says about the result r, when u was there at first and e is there now. */
  ghost predicate ChangeKnown(changed: bool, r: seq<Elem>, u: seq<Elem>, e: seq<Elem>) {
    if changed then r != u else e == u
  }

  lemma NoChange(r: seq<Elem>, u: seq<Elem>)
    ensures ChangeKnown(false, r, u, u)
  {
  }

  lemma ChangeFound(changed: bool, u: seq<Elem>, r: seq<Elem>)
    requires ChangeKnown(changed, r, u, r) && Good(u) && Good(r)
    ensures changed == !SameSet(u, r)
  {
    ChangedSet(u, r);
  }

  lemma ChangedSet(s: seq<Elem>, t: seq<Elem>)
    requires Good(s) && Good(t)
    ensures s != t <==> !SameSet(s, t)
  {
    if SameSet(s, t) {
      Canonical(s, t);
    }
  }

  lemma TailsAlike(e: seq<Elem>, k: nat, s: seq<Elem>, j: nat)
    requires k <= |e| && j <= |s| && e[k..] == s[j..]
    ensures |e| - k == |s| - j && (k < |e| ==> e[k] == s[j])
    ensures k == |e| ==> e[..k] == e
  {
    assert |e[k..]| == |s[j..]|;
    if k < |e| {
      assert e[k..][0] == s[j..][0];
    }
  }

  lemma MergedSelf(e: Elem)
    ensures Merged(Ior, e, e) == e
  {
    forall i | 0 <= i < |e.bits| ensures ApplyBits(Ior, e.bits, e.bits)[i] == e.bits[i] {
      SameBits(BitWords.Apply(Ior, e.bits[i], e.bits[i]), e.bits[i]);
    }
    assert ApplyBits(Ior, e.bits, e.bits) == e.bits;
  }

  lemma {:induction false} CombineSelf(s: seq<Elem>)
    requires Good(s)
    ensures Combine(Ior, s, s) == s
  {
    if s != [] {
      TailGood(s);
      CombineSelf(s[1..]);
      MergedSelf(s[0]);
    }
  }

  lemma CombineInOrder(op: Op, s: seq<Elem>, t: seq<Elem>)
    requires Good(s) && Good(t)
    ensures Good(Combine(op, s, t))
  {
    CombineGood(op, s, t, -1);
  }

  lemma RefNone(order: seq<nat>)
    ensures RefAt(order, -1) == NULL
  {
  }

  lemma LinkedCells(cells: Cells, first: nat, order: seq<nat>)
    requires Linked(cells, first, order)
    ensures InCells(cells, order) && first == RefAt(order, 0)
  {
  }

  lemma InOrder(cells: Cells, first: nat, order: seq<nat>, r: nat)
    requires Linked(cells, first, order) && r in cells
    ensures r in order && r != NULL
  {
    var i :| 0 <= i < |order| && order[i] == r;
    assert NodeOk(cells, order, i);
  }

  lemma CursorAt(cells: Cells, first: nat, order: seq<nat>, current: nat)
    requires Linked(cells, first, order) && current in cells
    ensures exists k: nat :: k < |order| && order[k] == current
  {
    assert current in order;
  }

  /** The loops of bitmap_find_bit. */
  method WalkBack(cells: Cells, start: nat, index: nat, ghost first: nat, ghost order: seq<nat>, ghost k: nat)
    returns (elt: nat, ghost i: nat)
    requires Linked(cells, first, order) && k < |order| && start == order[k] && start in cells
    requires cells[start].indx > index
    ensures i < |order| && elt == order[i] && elt in cells && InCells(cells, order)
    ensures cells[elt].indx < index ==> i + 1 < |order| && cells[order[i + 1]].indx > index
    ensures cells[elt].indx > index ==> i == 0
  {
    hide Linked, NodeOk;
    elt, i := start, k;
    ListLinks(cells, first, order, i);
    while cells[elt].prev != NULL && cells[elt].indx > index
      invariant i < |order| && elt == order[i] && cells[elt].prev == RefAt(order, i - 1)
      invariant cells[elt].indx > index || (i + 1 < |order| && cells[order[i + 1]].indx > index)
      decreases i
    {
      elt := cells[elt].prev;
      i := i - 1;
      ListLinks(cells, first, order, i);
    }
  }

  method WalkOn(cells: Cells, start: nat, index: nat, ghost first: nat, ghost order: seq<nat>, ghost k: nat)
    returns (elt: nat, ghost i: nat)
    requires Linked(cells, first, order) && k < |order| && start == order[k] && start in cells
    requires cells[start].indx < index
    ensures i < |order| && elt == order[i] && elt in cells && InCells(cells, order)
    ensures cells[elt].indx > index ==> i > 0 && cells[order[i - 1]].indx < index
    ensures cells[elt].indx < index ==> i + 1 == |order|
  {
    hide Linked, NodeOk;
    elt, i := start, k;
    ListLinks(cells, first, order, i);
    while cells[elt].next != NULL && cells[elt].indx < index
      invariant i < |order| && elt == order[i] && cells[elt].next == RefAt(order, i + 1)
      invariant cells[elt].indx < index || (i > 0 && cells[order[i - 1]].indx < index)
      decreases |order| - i
    {
      elt := cells[elt].next;
      i := i + 1;
      ListLinks(cells, first, order, i);
    }
  }

  /** The loops of bitmap_element_link: the neighbours that a block of the index must get. */
  method PlaceBefore(cells: Cells, start: nat, index: nat, ghost first: nat, ghost order: seq<nat>, ghost k: nat)
    returns (next: nat, prev: nat, ghost i: nat)
    requires Linked(cells, first, order) && k < |order| && start == order[k] && start in cells
    requires cells[start].indx > index
    ensures InCells(cells, order) && i < |order| && next == order[i] && prev == RefAt(order, i - 1)
    ensures cells[order[i]].indx > index && (i > 0 ==> cells[order[i - 1]].indx <= index)
  {
    hide Linked, NodeOk;
    var ptr := start;
    i := k;
    ListLinks(cells, first, order, i);
    while cells[ptr].prev != NULL && cells[cells[ptr].prev].indx > index
      invariant i < |order| && ptr == order[i] && cells[ptr].indx > index && cells[ptr].prev == RefAt(order, i - 1)
      decreases i
    {
      ptr := cells[ptr].prev;
      i := i - 1;
      ListLinks(cells, first, order, i);
    }
    next, prev := ptr, cells[ptr].prev;
  }

  method PlaceAfter(cells: Cells, start: nat, index: nat, ghost first: nat, ghost order: seq<nat>, ghost k: nat)
    returns (next: nat, prev: nat, ghost i: nat)
    requires Linked(cells, first, order) && k < |order| && start == order[k] && start in cells
    requires cells[start].indx <= index
    ensures InCells(cells, order) && 0 < i <= |order| && next == RefAt(order, i) && prev == order[i - 1]
    ensures cells[order[i - 1]].indx <= index && (i < |order| ==> cells[order[i]].indx >= index)
  {
    hide Linked, NodeOk;
    var ptr := start;
    i := k;
    ListLinks(cells, first, order, i);
    while cells[ptr].next != NULL && cells[cells[ptr].next].indx < index
      invariant i < |order| && ptr == order[i] && cells[ptr].indx <= index && cells[ptr].next == RefAt(order, i + 1)
      decreases |order| - i
    {
      ptr := cells[ptr].next;
      i := i + 1;
      ListLinks(cells, first, order, i);
    }
    next, prev := cells[ptr].next, ptr;
    i := i + 1;
  }

  /** The walk stopped beside the place of an index that is not there. */
  lemma NearestIsNot(s: seq<Elem>, i: nat, index: nat)
    requires Good(s) && i < |s| && s[i].indx != index
    requires s[i].indx < index ==> i + 1 == |s| || s[i + 1].indx > index
    requires s[i].indx > index ==> i == 0 || s[i - 1].indx < index
    ensures forall j :: 0 <= j < |s| ==> s[j].indx != index
  {
    forall j | 0 <= j < |s| ensures s[j].indx != index {
      if j > i + 1 {
        assert s[i + 1].indx < s[j].indx;
      } else if j < i - 1 {
        assert s[j].indx < s[i - 1].indx;
      }
    }
  }

  lemma MissHere(cells: Cells, order: seq<nat>, i: nat, index: nat)
    requires InCells(cells, order) && Good(ElemsOf(cells, order)) && i < |order| && cells[order[i]].indx != index
    requires cells[order[i]].indx < index ==> i + 1 == |order| || cells[order[i + 1]].indx > index
    requires cells[order[i]].indx > index ==> i == 0 || cells[order[i - 1]].indx < index
    ensures forall j :: 0 <= j < |order| ==> ElemsOf(cells, order)[j].indx != index
  {
    NearestIsNot(ElemsOf(cells, order), i, index);
  }

  lemma WithDef<T>(s: seq<T>, i: nat, x: T)
    requires i <= |s|
    ensures With(s, i, x) == s[..i] + [x] + s[i..]
  {
  }

  /** A new cell between its neighbours. */
  ghost predicate NewLinks(cells: Cells, order: seq<nat>, i: nat, n: nat, cells': Cells) {
    var next, prev := RefAt(order, i), RefAt(order, i - 1);
    var c := if prev != NULL && prev in cells then cells[prev := cells[prev].(next := n)] else cells;
    var d := if next != NULL && next in c then c[next := c[next].(prev := n)] else c;
    n in cells' && cells' == d[n := cells'[n]] && cells'[n].next == next && cells'[n].prev == prev
  }

  lemma NewLinksHold(cells: Cells, first: nat, order: seq<nat>, i: nat, n: nat, cells': Cells)
    requires Linked(cells, first, order) && i <= |order| && n !in cells && NewLinks(cells, order, i, n, cells')
    ensures PutIn(cells, cells', order, i, n)
  {
    forall j | 0 <= j < |order| ensures PutAt(cells, cells', order, i, n, j) {
      assert NodeOk(cells, order, j);
      assert i > 0 ==> NodeOk(cells, order, i - 1);
      assert i < |order| ==> NodeOk(cells, order, i);
    }
  }

  /** What the links of the list say around position i. */
  lemma ListLinks(cells: Cells, first: nat, order: seq<nat>, i: nat)
    requires Linked(cells, first, order) && i <= |order|
    ensures InCells(cells, order) && Apart(order) && first == RefAt(order, 0)
    ensures forall j :: 0 <= j < |order| ==> order[j] != NULL
    ensures i < |order| ==> cells[order[i]].next == RefAt(order, i + 1) && cells[order[i]].prev == RefAt(order, i - 1)
    ensures i > 0 ==> cells[order[i - 1]].next == RefAt(order, i)
  {
    if i < |order| {
      assert NodeOk(cells, order, i);
    }
    if i > 0 {
      assert NodeOk(cells, order, i - 1);
    }
    forall j | 0 <= j < |order| ensures order[j] != NULL {
      assert NodeOk(cells, order, j);
    }
  }

  ghost predicate Crossed(cells: Cells, order: seq<nat>, i: nat, cells': Cells)
    requires i < |order|
  {
    var next, prev := RefAt(order, i + 1), RefAt(order, i - 1);
    var c := if prev != NULL && prev in cells then cells[prev := cells[prev].(next := next)] else cells;
    cells' == if next != NULL && next in c then c[next := c[next].(prev := prev)] else c
  }

  lemma FreedCells(cells: Cells, first: nat, order: seq<nat>, i: nat, cells': Cells)
    requires Linked(cells, first, order) && i < |order|
    requires exists d :: Crossed(cells, order, i, d) && cells' == d - {order[i]}
    ensures TakenOut(cells, cells', order, i)
  {
    forall j | 0 <= j < |order| && j != i ensures TakenAt(cells, cells', order, i, j) {
      assert NodeOk(cells, order, j);
      assert i > 0 ==> NodeOk(cells, order, i - 1);
      assert i + 1 < |order| ==> NodeOk(cells, order, i + 1);
    }
  }

  lemma NewCells(cells: Cells, first: nat, order: seq<nat>, i: nat, n: nat, cells': Cells)
    requires Linked(cells, first, order) && i <= |order| && n !in cells
    requires var next, prev := RefAt(order, i), RefAt(order, i - 1);
             var c := if next != NULL && next in cells then cells[next := cells[next].(prev := n)] else cells;
             var d := if prev != NULL && prev in c then c[prev := c[prev].(next := n)] else c;
             n in cells' && cells' == d[n := cells'[n]] && cells'[n].next == next && cells'[n].prev == prev
    ensures PutIn(cells, cells', order, i, n)
  {
    forall j | 0 <= j < |order| ensures PutAt(cells, cells', order, i, n, j) {
      assert NodeOk(cells, order, j);
      assert i > 0 ==> NodeOk(cells, order, i - 1);
      assert i < |order| ==> NodeOk(cells, order, i);
    }
  }
}
