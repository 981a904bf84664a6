/** How linked cells hold a tree, and what changing one cell does to it (utils/avl.c). */
module AvlHeap {
  import opened AvlTree

  const NULL: nat := 0

  /** The table itself, whose root pointer is used as the left link of a cell. */
  const HEAD: nat := 1

  datatype Cell = Cell(left: nat, right: nat, item: Item, balance: int)

  type Heap = map<nat, Cell>

  function Link(c: Cell, d: bool): nat {
    if d then c.right else c.left
  }

  function WithLink(c: Cell, d: bool, r: nat): Cell {
    if d then c.(right := r) else c.(left := r)
  }

  function RefOf(t: Tree): nat {
    if t.Leaf? then NULL else t.ref
  }

  function CellOf(t: Tree): Cell
    requires t.Node?
  {
    Cell(RefOf(t.left), RefOf(t.right), t.item, t.balance)
  }

  function Refs(t: Tree): set<nat> {
    if t.Leaf? then {} else {t.ref} + Refs(t.left) + Refs(t.right)
  }

  ghost predicate Holds(h: Heap, t: Tree) {
    t.Leaf? || (t.ref in h && h[t.ref] == CellOf(t) && Holds(h, t.left) && Holds(h, t.right))
  }

  ghost predicate Distinct(t: Tree) {
    t.Leaf? || (t.ref > HEAD && t.ref !in Refs(t.left) && t.ref !in Refs(t.right) && Refs(t.left) !! Refs(t.right) &&
                Distinct(t.left) && Distinct(t.right))
  }

  /** The table holds exactly the tree. */
  ghost predicate Rep(h: Heap, t: Tree) {
    Holds(h, t) && Distinct(t) && HEAD in h && h[HEAD].left == RefOf(t) && h.Keys == Refs(t) + {HEAD}
  }

  lemma {:induction false} Frame(h: Heap, h': Heap, t: Tree)
    requires Holds(h, t) && forall r :: r in Refs(t) ==> r in h && r in h' && h'[r] == h[r]
    ensures Holds(h', t)
  {
    if t.Node? {
      Frame(h, h', t.left);
      Frame(h, h', t.right);
    }
  }

  lemma {:induction false} HeldRefs(h: Heap, t: Tree)
    requires Holds(h, t)
    ensures Refs(t) <= h.Keys
  {
    if t.Node? {
      HeldRefs(h, t.left);
      HeldRefs(h, t.right);
    }
  }

  lemma {:induction false} RefsLow(t: Tree)
    requires Distinct(t)
    ensures forall r :: r in Refs(t) ==> r > HEAD
  {
    if t.Node? {
      RefsLow(t.left);
      RefsLow(t.right);
    }
  }

  lemma {:induction false} RefsCount(t: Tree)
    requires Distinct(t)
    ensures |Refs(t)| == |InOrder(t)|
  {
    if t.Node? {
      RefsCount(t.left);
      RefsCount(t.right);
      assert Refs(t) == {t.ref} + (Refs(t.left) + Refs(t.right));
    }
  }

  // ---------- a subtree of the tree ----------

  function ParentRef(t: Tree, path: seq<bool>): nat
    requires Leads(t, path)
  {
    if path == [] then HEAD
    else
      PrefixLeads(t, path, |path| - 1);
      RefOf(At(t, path[..|path| - 1]))
  }

  function ParentDir(path: seq<bool>): bool {
    path != [] && path[|path| - 1]
  }

  lemma {:induction false} Sub(h: Heap, t: Tree, path: seq<bool>)
    requires Leads(t, path) && Distinct(t)
    ensures Distinct(At(t, path)) && Refs(At(t, path)) <= Refs(t) && (Holds(h, t) ==> Holds(h, At(t, path)))
  {
    if path != [] {
      Sub(h, Child(t, path[0]), path[1..]);
    }
  }

  /** The parent holds the link to the subtree. */
  lemma ParentLink(h: Heap, t: Tree, path: seq<bool>)
    requires Rep(h, t) && Leads(t, path)
    ensures ParentRef(t, path) in h && Link(h[ParentRef(t, path)], ParentDir(path)) == RefOf(At(t, path))
    ensures ParentRef(t, path) !in Refs(At(t, path))
    ensures path != [] ==> Link(h[ParentRef(t, path)], !ParentDir(path)) != RefOf(At(t, path)) || At(t, path).Leaf?
  {
    if path == [] {
      RefsLow(t);
    } else {
      ParentParts(t, path);
      Sub(h, t, path[..|path| - 1]);
      hide *;
      LocalLink(h, At(t, path[..|path| - 1]), path[|path| - 1]);
    }
  }

  lemma ParentParts(t: Tree, path: seq<bool>)
    requires Leads(t, path) && path != []
    ensures var n := |path| - 1;
            && Leads(t, path[..n]) && At(t, path[..n]).Node? && At(t, path) == Child(At(t, path[..n]), path[n])
            && ParentRef(t, path) == At(t, path[..n]).ref && ParentDir(path) == path[n]
  {
    var n := |path| - 1;
    PrefixLeads(t, path, n);
    assert path[..n] + [path[n]] == path;
    hide At, Leads, Child;
    OneDown(t, path[..n], path[n]);
  }

  lemma LocalLink(h: Heap, t: Tree, d: bool)
    requires t.Node? && Holds(h, t) && Distinct(t)
    ensures t.ref in h && h[t.ref] == CellOf(t) && Link(h[t.ref], d) == RefOf(Child(t, d))
    ensures t.ref !in Refs(Child(t, d))
    ensures Child(t, d).Node? ==> Link(h[t.ref], !d) != RefOf(Child(t, d))
  {
    RefInside(Child(t, d));
    RefInside(Child(t, !d));
    RefsLow(Child(t, d));
  }

  lemma RefInside(t: Tree)
    ensures t.Node? ==> RefOf(t) in Refs(t)
  {
  }

  lemma {:induction false} ParentDown(t: Tree, path: seq<bool>)
    requires Leads(t, path) && path != [] && path[1..] != []
    ensures ParentRef(t, path) == ParentRef(Child(t, path[0]), path[1..])
  {
    var n := |path| - 1;
    PrefixLeads(t, path, n);
    assert path[..n][0] == path[0] && path[..n][1..] == path[1..][..n - 1];
  }

  lemma {:induction false} PutRefs(t: Tree, path: seq<bool>, s: Tree)
    requires Leads(t, path) && Distinct(t)
    ensures Refs(Put(t, path, s)) == (Refs(t) - Refs(At(t, path))) + Refs(s)
  {
    if path != [] {
      PutRefs(Child(t, path[0]), path[1..], s);
      Sub(map[], Child(t, path[0]), path[1..]);
      assert Refs(t) == {t.ref} + Refs(Child(t, path[0])) + Refs(Child(t, !path[0]));
      var p := Put(t, path, s);
      assert Refs(p) == {t.ref} + Refs(Child(p, path[0])) + Refs(Child(t, !path[0]));
    }
  }

  /** The cells after a subtree has been exchanged: outside the old subtree only the link of
      its parent is different. */
  ghost predicate Exchanged(h: Heap, h': Heap, t: Tree, path: seq<bool>, s: Tree)
    requires Leads(t, path)
  {
    && (forall r :: r in Refs(t) && r !in Refs(At(t, path)) && r != ParentRef(t, path) ==>
           r in h' && r in h && h'[r] == h[r])
    && ParentRef(t, path) in h && ParentRef(t, path) in h'
    && h'[ParentRef(t, path)] == WithLink(h[ParentRef(t, path)], ParentDir(path), RefOf(s))
  }

  ghost predicate ExchangedInTable(h: Heap, h': Heap, t: Tree, path: seq<bool>, s: Tree)
    requires Leads(t, path)
  {
    Exchanged(h, h', t, path, s) && (path != [] ==> HEAD in h && HEAD in h' && h'[HEAD] == h[HEAD])
  }

  lemma {:induction false} PutHolds(h: Heap, h': Heap, t: Tree, path: seq<bool>, s: Tree)
    requires Holds(h, t) && Distinct(t) && Leads(t, path) && Holds(h', s) && Distinct(s)
    requires forall r :: r in Refs(s) && r in Refs(t) ==> r in Refs(At(t, path))
    requires path != [] ==> Exchanged(h, h', t, path, s)
    ensures Holds(h', Put(t, path, s)) && Distinct(Put(t, path, s))
  {
    if path != [] {
      var d, rest := path[0], path[1..];
      var c, o := Child(t, d), Child(t, !d);
      Sub(h, c, rest);
      PutRefs(c, rest, s);
      if rest == [] {
        assert path[..|path| - 1] == [];
        Frame(h, h', o);
      } else {
        ParentDown(t, path);
        ParentInside(h, c, rest);
        assert ParentDir(path) == ParentDir(rest);
        PutHolds(h, h', c, rest, s);
        Frame(h, h', o);
      }
    }
  }

  lemma ParentInside(h: Heap, t: Tree, path: seq<bool>)
    requires Leads(t, path) && path != [] && Distinct(t)
    ensures ParentRef(t, path) in Refs(t)
  {
    PrefixLeads(t, path, |path| - 1);
    Sub(h, t, path[..|path| - 1]);
    RefInside(At(t, path[..|path| - 1]));
  }

  /** A subtree exchanged for another whose cells are in place. */
  lemma PutRep(h: Heap, h': Heap, t: Tree, path: seq<bool>, s: Tree)
    requires Rep(h, t) && Leads(t, path) && Holds(h', s) && Distinct(s) && ExchangedInTable(h, h', t, path, s)
    requires forall r :: r in Refs(s) && r in Refs(t) ==> r in Refs(At(t, path))
    requires h'.Keys == (h.Keys - Refs(At(t, path))) + Refs(s)
    ensures Rep(h', Put(t, path, s))
  {
    PutHolds(h, h', t, path, s);
    PutRefs(t, path, s);
    Sub(h, t, path);
    RefsLow(t);
    RefsLow(s);
    HeadLink(h, h', t, path, s);
    hide Holds, Distinct, At, Leads, Refs, Put, Exchanged, ExchangedInTable;
    assert h'.Keys == Refs(Put(t, path, s)) + {HEAD};
  }

  lemma HeadLink(h: Heap, h': Heap, t: Tree, path: seq<bool>, s: Tree)
    requires Rep(h, t) && Leads(t, path) && ExchangedInTable(h, h', t, path, s)
    requires h'.Keys == (h.Keys - Refs(At(t, path))) + Refs(s)
    requires Distinct(Put(t, path, s))
    ensures HEAD in h' && h'[HEAD].left == RefOf(Put(t, path, s)) && HEAD !in Refs(t)
  {
    RefsLow(t);
    Sub(h, t, path);
    hide Holds, Distinct, Refs;
    if path != [] {
      ParentInside(h, t, path);
      assert HEAD in h && HEAD !in Refs(At(t, path));
      assert h'[HEAD] == h[HEAD];
    }
  }

  // ---------- the writes of insertion and deletion ----------

  lemma SameParent(h: Heap, h': Heap, t: Tree, path: seq<bool>, s: Tree)
    requires Rep(h, t) && Leads(t, path) && RefOf(s) == RefOf(At(t, path))
    requires forall r :: r in h && r !in Refs(At(t, path)) ==> r in h' && h'[r] == h[r]
    ensures ExchangedInTable(h, h', t, path, s)
  {
    ParentLink(h, t, path);
    if path != [] {
      HeadAside(h, t, path);
    }
    hide Holds, Distinct, At, Leads, Refs;
  }

  lemma HeadAside(h: Heap, t: Tree, path: seq<bool>)
    requires Rep(h, t) && Leads(t, path)
    ensures HEAD in h && HEAD !in Refs(At(t, path)) && (path != [] ==> ParentRef(t, path) != HEAD)
  {
    RefsLow(t);
    Sub(h, t, path);
    if path != [] {
      ParentInside(h, t, path);
    }
  }

  lemma NewParent(h: Heap, h': Heap, t: Tree, path: seq<bool>, s: Tree)
    requires Rep(h, t) && Leads(t, path)
    requires forall r :: r in h && r !in Refs(At(t, path)) && r != ParentRef(t, path) ==> r in h' && h'[r] == h[r]
    requires ParentRef(t, path) in h && ParentRef(t, path) in h'
    requires h'[ParentRef(t, path)] == WithLink(h[ParentRef(t, path)], ParentDir(path), RefOf(s))
    ensures ExchangedInTable(h, h', t, path, s)
  {
    HeadAside(h, t, path);
    hide Holds, Distinct, At, Leads, Refs;
  }

  /** A balance factor changed in one cell. */
  lemma BalanceRep(h: Heap, t: Tree, path: seq<bool>, b: int)
    requires Rep(h, t) && Leads(t, path) && At(t, path).Node?
    ensures var u := At(t, path);
            u.ref in h && h[u.ref] == CellOf(u)
              && Rep(h[u.ref := h[u.ref].(balance := b)], Put(t, path, u.(balance := b)))
  {
    var u := At(t, path);
    Sub(h, t, path);
    var h' := h[u.ref := h[u.ref].(balance := b)];
    var s := u.(balance := b);
    Frame(h, h', u.left);
    Frame(h, h', u.right);
    assert Holds(h', s) && Distinct(s) && Refs(s) == Refs(u) && RefOf(s) == RefOf(u) && u.ref in Refs(u) && u.ref in h;
    SameParent(h, h', t, path, s);
    hide Holds, Distinct, At, Leads, Refs, Exchanged, ExchangedInTable, Put;
    PutRep(h, h', t, path, s);
  }

  function NewNode(n: nat, x: Item): Tree {
    Node(n, Leaf, x, 0, Leaf)
  }

  /** A new cell linked where the search ended. */
  lemma GraftRep(h: Heap, t: Tree, path: seq<bool>, n: nat, x: Item)
    requires Rep(h, t) && Leads(t, path) && At(t, path) == Leaf && n !in h && n > HEAD
    ensures ParentRef(t, path) in h
    ensures var q := ParentRef(t, path);
            Rep(h[q := WithLink(h[q], ParentDir(path), n)][n := Cell(NULL, NULL, x, 0)], Put(t, path, NewNode(n, x)))
  {
    ParentLink(h, t, path);
    var q := ParentRef(t, path);
    var h' := h[q := WithLink(h[q], ParentDir(path), n)][n := Cell(NULL, NULL, x, 0)];
    var s := NewNode(n, x);
    assert Refs(s) == {n} && Refs(At(t, path)) == {};
    HeldRefs(h, t);
    NewParent(h, h', t, path, s);
    LeafHolds(h', n, x);
    hide Holds, Distinct, At, Leads, Refs, Exchanged, ExchangedInTable, Put;
    PutRep(h, h', t, path, s);
  }

  lemma LeafHolds(h: Heap, n: nat, x: Item)
    requires n in h && h[n] == Cell(NULL, NULL, x, 0) && n > HEAD
    ensures Holds(h, NewNode(n, x)) && Distinct(NewNode(n, x))
  {
  }

  lemma RotateRefs(t: Tree, d: bool)
    requires t.Node? && Child(t, d).Node? && (Child(t, d).balance == -Sign(d) ==> Child(Child(t, d), !d).Node?)
    requires Distinct(t)
    ensures Refs(Rotate(t, d)) == Refs(t) && Distinct(Rotate(t, d)) && Rotate(t, d).Node?
  {
    var x := Child(t, d);
    if x.balance == -Sign(d) {
      var w := Child(x, !d);
      TwoSides(t, d);
      TwoSides(x, d);
      TwoSides(w, d);
      var r := Rotate(t, d);
      TwoSides(r, d);
      TwoSides(Child(r, d), d);
      TwoSides(Child(r, !d), d);
    } else {
      TwoSides(t, d);
      TwoSides(x, d);
      var r := Rotate(t, d);
      TwoSides(r, d);
      TwoSides(Child(r, !d), d);
    }
  }

  lemma TwoSides(t: Tree, d: bool)
    requires t.Node?
    ensures Refs(t) == {t.ref} + Refs(Child(t, d)) + Refs(Child(t, !d))
    ensures Distinct(t) <==>
              t.ref > HEAD && t.ref !in Refs(Child(t, d)) && t.ref !in Refs(Child(t, !d))
                && Refs(Child(t, d)) !! Refs(Child(t, !d)) &&
                             Distinct(Child(t, d)) && Distinct(Child(t, !d))
  {
  }
}
