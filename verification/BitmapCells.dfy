/** The doubly linked blocks of a bitmap (utils/bitmap.c). */
module BitmapCells {
  import opened BitWords
  import opened BitmapSet

  const NULL: nat := 0

  datatype Cell = Cell(next: nat, prev: nat, indx: nat, bits: Bits)

  type Cells = map<nat, Cell>

  function RefAt(order: seq<nat>, i: int): nat {
    if 0 <= i < |order| then order[i] else NULL
  }

  ghost predicate InCells(cells: Cells, order: seq<nat>) {
    forall i :: 0 <= i < |order| ==> order[i] in cells
  }

  ghost predicate Apart(order: seq<nat>) {
    forall i, j :: 0 <= i < j < |order| ==> order[i] != order[j]
  }

  ghost predicate NodeOk(cells: Cells, order: seq<nat>, i: int)
    requires InCells(cells, order) && 0 <= i < |order|
  {
    order[i] != NULL && cells[order[i]].next == RefAt(order, i + 1) && cells[order[i]].prev == RefAt(order, i - 1)
  }

  /** The cells form one list, linked both ways, in the given order. */
  ghost predicate Linked(cells: Cells, first: nat, order: seq<nat>) {
    && InCells(cells, order) && Apart(order) && first == RefAt(order, 0)
    && (forall i :: 0 <= i < |order| ==> NodeOk(cells, order, i))
    && (forall r :: r in cells ==> r in order)
  }

  function ElemOf(c: Cell): Elem {
    Elem(c.indx, c.bits)
  }

  ghost function ElemsOf(cells: Cells, order: seq<nat>): (s: seq<Elem>)
    requires InCells(cells, order)
    ensures |s| == |order| && forall i :: 0 <= i < |order| ==> s[i] == ElemOf(cells[order[i]])
  {
    seq(|order|, i requires 0 <= i < |order| => ElemOf(cells[order[i]]))
  }

  function Without<T>(s: seq<T>, i: nat): seq<T>
    requires i < |s|
  {
    s[..i] + s[i + 1..]
  }

  function With<T>(s: seq<T>, i: nat, x: T): seq<T>
    requires i <= |s|
  {
    s[..i] + [x] + s[i..]
  }

  /** The cells after the one at position i has been taken out of the list. */
  ghost predicate TakenOut(cells: Cells, cells': Cells, order: seq<nat>, i: nat)
    requires InCells(cells, order) && i < |order|
  {
    cells'.Keys == cells.Keys - {order[i]} && forall j :: 0 <= j < |order| && j != i ==>
      TakenAt(cells, cells', order, i, j)
  }

  ghost predicate TakenAt(cells: Cells, cells': Cells, order: seq<nat>, i: nat, j: int)
    requires InCells(cells, order) && i < |order| && 0 <= j < |order|
  {
    var c := cells[order[j]];
    order[j] in cells' && cells'[order[j]] == c.(
      next := if j == i - 1 then RefAt(order, i + 1) else c.next,
      prev := if j == i + 1 then RefAt(order, i - 1) else c.prev)
  }

  lemma WithoutAt<T>(s: seq<T>, i: nat)
    requires i < |s|
    ensures |Without(s, i)| == |s| - 1
    ensures forall j :: 0 <= j < |s| - 1 ==> Without(s, i)[j] == s[if j < i then j else j + 1]
  {
  }

  lemma TakenOutLinked(cells: Cells, cells': Cells, first: nat, order: seq<nat>, i: nat)
    requires Linked(cells, first, order) && i < |order| && TakenOut(cells, cells', order, i)
    ensures Linked(cells', if i == 0 then RefAt(order, 1) else first, Without<nat>(order, i))
    ensures ElemsOf(cells', Without<nat>(order, i)) == Without<Elem>(ElemsOf(cells, order), i)
  {
    var o := Without<nat>(order, i);
    WithoutAt<nat>(order, i);
    WithoutAt<Elem>(ElemsOf(cells, order), i);
    hide Without;
    forall j | 0 <= j < |o|
      ensures o[j] in cells' && ElemOf(cells'[o[j]]) == Without<Elem>(ElemsOf(cells, order), i)[j]
    {
      assert TakenAt(cells, cells', order, i, if j < i then j else j + 1);
    }
    TakenKeys(cells, cells', first, order, i, o);
    hide ElemsOf, Apart;
    forall j | 0 <= j < |o| ensures NodeOk(cells', o, j) {
      TakenNode(cells, cells', first, order, i, o, j);
    }
  }

  lemma TakenKeys(cells: Cells, cells': Cells, first: nat, order: seq<nat>, i: nat, o: seq<nat>)
    requires Linked(cells, first, order) && i < |order| && cells'.Keys == cells.Keys - {order[i]}
    requires |o| == |order| - 1 && forall j :: 0 <= j < |o| ==> o[j] == order[if j < i then j else j + 1]
    ensures Apart(o) && forall r :: r in cells' ==> r in o
  {
    forall r | r in cells' ensures r in o {
      var j :| 0 <= j < |order| && order[j] == r;
      assert o[if j < i then j else j - 1] == r;
    }
  }

  lemma TakenNode(cells: Cells, cells': Cells, first: nat, order: seq<nat>, i: nat, o: seq<nat>, j: nat)
    requires Linked(cells, first, order) && i < |order| && TakenOut(cells, cells', order, i) && InCells(cells', o)
    requires |o| == |order| - 1 && (forall k :: 0 <= k < |o| ==> o[k] == order[if k < i then k else k + 1]) && j < |o|
    ensures NodeOk(cells', o, j)
  {
    var j' := if j < i then j else j + 1;
    assert NodeOk(cells, order, j') && TakenAt(cells, cells', order, i, j');
  }

  /** The cells after a new one has been put in at position i. */
  ghost predicate PutIn(cells: Cells, cells': Cells, order: seq<nat>, i: nat, n: nat)
    requires InCells(cells, order) && i <= |order|
  {
    && cells'.Keys == cells.Keys + {n} && n in cells' && cells'[n].next == RefAt(order, i)
    && cells'[n].prev == RefAt(order, i - 1)
    && forall j :: 0 <= j < |order| ==> PutAt(cells, cells', order, i, n, j)
  }

  ghost predicate PutAt(cells: Cells, cells': Cells, order: seq<nat>, i: nat, n: nat, j: int)
    requires InCells(cells, order) && i <= |order| && 0 <= j < |order|
  {
    var c := cells[order[j]];
    order[j] in cells' && cells'[order[j]] ==
      c.(next := if j == i - 1 then n else c.next, prev := if j == i then n else c.prev)
  }

  lemma WithAt<T>(s: seq<T>, i: nat, x: T)
    requires i <= |s|
    ensures |With(s, i, x)| == |s| + 1
    ensures forall j :: 0 <= j < |s| + 1 ==> With(s, i, x)[j] == if j == i then x else s[if j < i then j else j - 1]
  {
  }

  lemma PutInLinked(cells: Cells, cells': Cells, first: nat, order: seq<nat>, i: nat, n: nat)
    requires Linked(cells, first, order) && i <= |order| && n !in cells && n != NULL
    requires PutIn(cells, cells', order, i, n)
    ensures Linked(cells', if i == 0 then n else first, With<nat>(order, i, n))
    ensures ElemsOf(cells', With<nat>(order, i, n)) == With<Elem>(ElemsOf(cells, order), i, ElemOf(cells'[n]))
  {
    var o := With<nat>(order, i, n);
    WithAt<nat>(order, i, n);
    PutElems(cells, cells', order, i, n);
    hide With;
    PutKeys(cells, cells', first, order, i, n, o);
    hide ElemsOf, Apart;
    forall j | 0 <= j < |o| ensures NodeOk(cells', o, j) {
      PutNode(cells, cells', first, order, i, n, o, j);
    }
  }

  lemma PutElems(cells: Cells, cells': Cells, order: seq<nat>, i: nat, n: nat)
    requires InCells(cells, order) && i <= |order| && PutIn(cells, cells', order, i, n)
    ensures InCells(cells', With<nat>(order, i, n))
    ensures ElemsOf(cells', With<nat>(order, i, n)) == With<Elem>(ElemsOf(cells, order), i, ElemOf(cells'[n]))
  {
    var o := With<nat>(order, i, n);
    WithAt<nat>(order, i, n);
    WithAt<Elem>(ElemsOf(cells, order), i, ElemOf(cells'[n]));
    hide With;
    forall j | 0 <= j < |o|
      ensures o[j] in cells' && ElemOf(cells'[o[j]]) == With<Elem>(ElemsOf(cells, order), i, ElemOf(cells'[n]))[j]
    {
      if j != i {
        assert PutAt(cells, cells', order, i, n, if j < i then j else j - 1);
      }
    }
  }

  lemma PutKeys(cells: Cells, cells': Cells, first: nat, order: seq<nat>, i: nat, n: nat, o: seq<nat>)
    requires Linked(cells, first, order) && i <= |order| && cells'.Keys == cells.Keys + {n} && n !in cells
    requires |o| == |order| + 1
    requires forall j :: 0 <= j < |o| ==> o[j] == if j == i then n else order[if j < i then j else j - 1]
    ensures Apart(o) && forall r :: r in cells' ==> r in o
  {
    forall r | r in cells' ensures r in o {
      if r == n {
        assert o[i] == n;
      } else {
        var j :| 0 <= j < |order| && order[j] == r;
        assert o[if j < i then j else j + 1] == r;
      }
    }
  }

  lemma PutNode(cells: Cells, cells': Cells, first: nat, order: seq<nat>, i: nat, n: nat, o: seq<nat>, j: nat)
    requires Linked(cells, first, order) && i <= |order| && n !in cells && n != NULL
    requires PutIn(cells, cells', order, i, n) && InCells(cells', o)
    requires |o| == |order| + 1
    requires (forall k :: 0 <= k < |o| ==> o[k] == if k == i then n else order[if k < i then k else k - 1]) && j < |o|
    ensures NodeOk(cells', o, j)
  {
    if j != i {
      var j' := if j < i then j else j - 1;
      assert NodeOk(cells, order, j') && PutAt(cells, cells', order, i, n, j');
    }
  }

  lemma WrittenLinked(cells: Cells, first: nat, order: seq<nat>, i: nat, e: Elem)
    requires Linked(cells, first, order) && i < |order|
    ensures order[i] in cells
    ensures var c := cells[order[i] := cells[order[i]].(indx := e.indx, bits := e.bits)];
            Linked(c, first, order) && ElemsOf(c, order) == ElemsOf(cells, order)[i := e]
  {
    var c := cells[order[i] := cells[order[i]].(indx := e.indx, bits := e.bits)];
    forall j | 0 <= j < |order| ensures NodeOk(c, order, j) {
      assert NodeOk(cells, order, j);
    }
  }
}
