/** What the loops of the balanced tree have done so far, on values (utils/avl.c). */
module AvlSteps {
  import opened AvlTree
  import opened AvlHeap

  const SIZE_LIMIT := 0x1_0000_0000_0000_0000

  // ---------- where a search has got to ----------

  /** The search for the key has followed path; the last uneven node on it, or else the root,
      is at the end of top, and low leads on from there. */
  ghost predicate Descent(t: Tree, key: int, path: seq<bool>, top: seq<bool>, low: seq<bool>) {
    && Leads(t, path) && Leads(t, top) && path == top + low && Between(t, path, key)
    && EvenBelow(At(t, top), low) && (top != [] ==> low != [] && At(t, top).Node? && At(t, top).balance != 0)
  }

  /** All nodes on the way but the first have balance 0. */
  predicate EvenBelow(y: Tree, low: seq<bool>) {
    low != [] ==> y.Node? && Leads(Child(y, low[0]), low[1..]) && AllEven(Child(y, low[0]), low[1..])
  }

  lemma EvenBelowMore(y: Tree, low: seq<bool>, d: bool)
    requires EvenBelow(y, low) && Leads(y, low) && At(y, low).Node? && (low != [] ==> At(y, low).balance == 0)
    ensures EvenBelow(y, low + [d])
  {
    if low == [] {
      assert (low + [d])[1..] == [];
    } else {
      assert (low + [d])[0] == low[0] && (low + [d])[1..] == low[1..] + [d];
      var c := Child(y, low[0]);
      AllEvenMore(c, low[1..], d);
      OneDown(c, low[1..], d);
    }
  }

  lemma {:induction false} AllEvenMore(t: Tree, path: seq<bool>, d: bool)
    requires Leads(t, path) && AllEven(t, path) && At(t, path).Node? && At(t, path).balance == 0
    ensures AllEven(t, path + [d])
  {
    if path == [] {
      assert (path + [d])[1..] == [];
    } else {
      assert (path + [d])[0] == path[0] && (path + [d])[1..] == path[1..] + [d];
      AllEvenMore(Child(t, path[0]), path[1..], d);
    }
  }

  lemma DescentDown(t: Tree, key: int, path: seq<bool>, top: seq<bool>, low: seq<bool>)
    requires Descent(t, key, path, top, low) && Increasing(InOrder(t)) && At(t, path).Node?
    requires At(t, path).item.key != key
    ensures var u := At(t, path);
            var d := key > u.item.key;
            && Leads(t, path + [d]) && At(t, path + [d]) == Child(u, d)
            && if u.balance != 0 then Descent(t, key, path + [d], path, [d])
                 else Descent(t, key, path + [d], top, low + [d])
  {
    hide At, Leads, Between, Increasing, InOrder, AllEven, EvenBelow, Child;
    var u := At(t, path);
    var d := key > u.item.key;
    SearchDown(t, path, key);
    OneDown(t, path, d);
    AtNone(u);
    Longer(t, top, low);
    if u.balance == 0 {
      EvenBelowMore(At(t, top), low, d);
      assert path + [d] == top + (low + [d]);
    } else {
      EvenBelowMore(u, [], d);
      assert [] + [d] == [d];
    }
  }

  lemma AtNone(t: Tree)
    ensures Leads(t, []) && At(t, []) == t && EvenBelow(t, [])
  {
  }

  lemma Room(t: Tree, path: seq<bool>)
    requires Avl(t) && |InOrder(t)| < SIZE_LIMIT && Leads(t, path) && At(t, path).Node?
    ensures |path| + 1 < AVL_MAX_HEIGHT
  {
    PathBound(t, path);
    HeightBound(t);
  }

  lemma HasKey(t: Tree, path: seq<bool>)
    requires Leads(t, path) && At(t, path).Node?
    ensures At(t, path).item in InOrder(t) && At(t, path).item.key in Keys(InOrder(t))
  {
    Split(t, path);
    NodeItems(At(t, path));
    var i := |Pre(t, path)| + |InOrder(At(t, path).left)|;
    hide Pre, Post, InOrder, At, Leads;
    assert InOrder(t)[i] == At(t, path).item;
  }

  lemma NoKey(t: Tree, path: seq<bool>, key: int)
    requires Leads(t, path) && At(t, path) == Leaf && Between(t, path, key) && Increasing(InOrder(t))
    ensures key !in Keys(InOrder(t))
  {
    InsertIncreasing(t, path, Item(key, 0));
  }

  // ---------- what an insertion makes of the tree ----------

  /** The new leaf, the moved factors, and at most one rotation at the end of top. */
  function Inserted(t: Tree, top: seq<bool>, low: seq<bool>, n: nat, x: Item): Tree
    requires Leads(t, top) && Leads(At(t, top), low) && low != []
    requires var u := Bumped(At(t, top), low, NewNode(n, x)); u.Node? && (u.balance < -1 || u.balance > 1 ==>
               TwoHigher(u, u.balance > 0))
  {
    Put(t, top, Fix(Bumped(At(t, top), low, NewNode(n, x))))
  }

  lemma InsertShape(t: Tree, path: seq<bool>, top: seq<bool>, low: seq<bool>, n: nat, x: Item)
    requires Avl(t) && Descent(t, x.key, path, top, low) && At(t, path) == Leaf && low != []
    ensures Leads(At(t, top), low) && At(At(t, top), low) == Leaf
    ensures var u := Bumped(At(t, top), low, NewNode(n, x));
            && u.Node? && u.balance == At(t, top).balance + Sign(low[0])
            && (u.balance < -1 || u.balance > 1 ==> TwoHigher(u, u.balance > 0) && u.balance == 2 * Sign(low[0]))
  {
    Longer(t, top, low);
    AvlAt(t, top);
    InsertRepairs(At(t, top), low, NewNode(n, x));
  }

  lemma InsertResult(t: Tree, path: seq<bool>, top: seq<bool>, low: seq<bool>, n: nat, x: Item)
    requires Avl(t) && Increasing(InOrder(t)) && Descent(t, x.key, path, top, low) && At(t, path) == Leaf && low != []
    requires Leads(At(t, top), low) && At(At(t, top), low) == Leaf
    requires var u := Bumped(At(t, top), low, NewNode(n, x)); u.Node? && (u.balance < -1 || u.balance > 1 ==>
               TwoHigher(u, u.balance > 0))
    ensures Avl(Inserted(t, top, low, n, x)) && Increasing(InOrder(Inserted(t, top, low, n, x)))
    ensures InOrder(Inserted(t, top, low, n, x)) == Pre(t, path) + [x] + Post(t, path)
    ensures InOrder(t) == Pre(t, path) + Post(t, path)
    ensures x.key !in Keys(InOrder(t))
  {
    var y, leaf := At(t, top), NewNode(n, x);
    AvlAt(t, top);
    InsertRepairs(y, low, leaf);
    InsertIncreasing(t, path, x);
    var u := Bumped(y, low, leaf);
    InsertItems(t, path, top, low, leaf);
    assert Avl(Put(t, top, Fix(u))) by {
      if top != [] {
        PutAvl(t, top, Fix(u));
      }
    }
  }

  lemma InsertItems(t: Tree, path: seq<bool>, top: seq<bool>, low: seq<bool>, leaf: Tree)
    requires Leads(t, top) && Leads(At(t, top), low) && path == top + low && Leads(t, path)
    requires leaf.Node? && leaf.left == Leaf && leaf.right == Leaf
    ensures forall s :: InOrder(s) == InOrder(Bumped(At(t, top), low, leaf)) ==>
              InOrder(Put(t, top, s)) == Pre(t, path) + [leaf.item] + Post(t, path)
  {
    hide At, Leads, Put, Pre, Post, Bump, Child;
    var y := At(t, top);
    assert InOrder(leaf) == [leaf.item];
    PutItems(t, path, leaf);
    PutLonger(t, top, low, leaf);
    PutItems(y, low, leaf);
    BumpItems(Put(y, low, leaf), low, |low|);
    hide InOrder;
    PutItems(t, top, Put(y, low, leaf));
    forall s | InOrder(s) == InOrder(Bumped(y, low, leaf))
      ensures InOrder(Put(t, top, s)) == Pre(t, path) + [leaf.item] + Post(t, path)
    {
      PutItems(t, top, s);
    }
  }

  // ---------- a tree that has only grown ----------

  /** Every node of t stands at the same place in u. */
  predicate Extends(t: Tree, u: Tree) {
    t.Leaf? || (u.Node? && u.ref == t.ref && Extends(t.left, u.left) && Extends(t.right, u.right))
  }

  lemma {:induction false} ExtendsSelf(t: Tree)
    ensures Extends(t, t)
  {
    if t.Node? {
      ExtendsSelf(t.left);
      ExtendsSelf(t.right);
    }
  }

  lemma {:induction false} ExtendsPut(t: Tree, path: seq<bool>, s: Tree)
    requires Leads(t, path) && Extends(At(t, path), s)
    ensures Extends(t, Put(t, path, s))
  {
    if path != [] {
      ExtendsPut(Child(t, path[0]), path[1..], s);
      ExtendsSelf(Child(t, !path[0]));
    }
  }

  lemma {:induction false} ExtendsBump(t: Tree, u: Tree, path: seq<bool>, k: nat)
    requires Extends(t, u) && Leads(u, path) && k <= |path|
    ensures Extends(t, Bump(u, path, k))
  {
    if k > 0 && t.Node? {
      ExtendsBump(Child(t, path[0]), Child(u, path[0]), path[1..], k - 1);
    }
  }

  lemma {:induction false} ExtendsPath(t: Tree, u: Tree, path: seq<bool>)
    requires Extends(t, u) && Leads(t, path)
    ensures Leads(u, path) && Extends(At(t, path), At(u, path))
  {
    if path != [] {
      ExtendsPath(Child(t, path[0]), Child(u, path[0]), path[1..]);
    }
  }

  // ---------- the cells of a rotation ----------

  /** An address in use before and after has kept its item. */
  ghost predicate Stay(h: Heap, h': Heap) {
    forall a :: a in h && a in h' ==> h'[a].item == h[a].item
  }

  /** Links and balance factors may change, items not. */
  ghost predicate SameItems(h: Heap, h': Heap) {
    h'.Keys == h.Keys && forall a :: a in h ==> h'[a].item == h[a].item
  }

  lemma ParentNext(t: Tree, path: seq<bool>, d: bool)
    requires Leads(t, path) && Leads(t, path + [d])
    ensures ParentRef(t, path + [d]) == RefOf(At(t, path)) && ParentDir(path + [d]) == d
  {
    var p := path + [d];
    assert p[..|p| - 1] == path;
  }

  /** Where only cells of the root and of one side change, the other side is held as before. */
  lemma OtherSide(h: Heap, h': Heap, t: Tree, d: bool)
    requires t.Node? && Holds(h, t) && Distinct(t)
    requires forall a :: a in Refs(Child(t, !d)) ==> a in h && a in h' && h'[a] == h[a]
    ensures Holds(h', Child(t, !d)) && Holds(h, Child(t, d)) && Distinct(Child(t, d))
  {
    TwoSides(t, d);
    BothHold(h, t, d);
    Frame(h, h', Child(t, !d));
  }

  /** A double rotation touches none of the subtrees below its three nodes. */
  lemma DoubleFrames(h: Heap, h': Heap, t: Tree, d: bool)
    requires Holds(h, t) && Distinct(t) && t.Node? && Child(t, d).Node? && Child(Child(t, d), !d).Node?
    requires var x := Child(t, d);
             var w := Child(x, !d);
             forall a :: a in Refs(t) && a != t.ref && a != x.ref && a != w.ref ==> a in h && a in h' && h'[a] == h[a]
    ensures var x := Child(t, d);
            var w := Child(x, !d);
            && Holds(h', Child(t, !d)) && Holds(h', Child(x, d)) && Holds(h', Child(w, d)) && Holds(h', Child(w, !d))
  {
    hide Refs, Distinct, Holds;
    var x := Child(t, d);
    var w := Child(x, !d);
    TwoSides(t, d);
    TwoSides(x, !d);
    TwoSides(w, d);
    OtherSide(h, h', t, d);
    OtherSide(h, h', x, !d);
    OtherSide(h, h', w, d);
    OtherSide(h, h', w, !d);
  }

  lemma DoubleHolds(h: Heap, h': Heap, t: Tree, d: bool)
    requires Holds(h, t) && Distinct(t) && t.Node? && Child(t, d).Node? && Child(t, d).balance == -Sign(d)
    requires Child(Child(t, d), !d).Node?
    requires var r, x := Rotate(t, d), Child(t, d);
             var w := Child(x, !d);
             && w.ref in h' && h'[w.ref] == CellOf(r) && x.ref in h' && h'[x.ref] == CellOf(Child(r, d))
             && t.ref in h' && h'[t.ref] == CellOf(Child(r, !d))
             && forall a :: a in Refs(t) && a != t.ref && a != x.ref && a != w.ref ==>
                    a in h && a in h' && h'[a] == h[a]
    ensures Holds(h', Rotate(t, d))
  {
    var r, x := Rotate(t, d), Child(t, d);
    var w := Child(x, !d);
    DoubleFrames(h, h', t, d);
    hide Refs, Distinct, Holds;
    BothHold(h', r, d);
    BothHold(h', Child(r, d), d);
    BothHold(h', Child(r, !d), d);
  }

  lemma DoubleCells(t: Tree, d: bool)
    requires t.Node? && Child(t, d).Node? && Child(t, d).balance == -Sign(d) && Child(Child(t, d), !d).Node?
    ensures var r, x := Rotate(t, d), Child(t, d);
            var w := Child(x, !d);
            && CellOf(r) == WithLink(WithLink(CellOf(w), d, x.ref), !d, t.ref).(balance := 0)
            && CellOf(Child(r, d)) ==
                 WithLink(CellOf(x), !d, Link(CellOf(w), d)).(balance := if w.balance == -Sign(d) then Sign(d) else 0)
            && CellOf(Child(r, !d)) ==
                 WithLink(CellOf(t), d, Link(CellOf(w), !d)).(balance := if w.balance == Sign(d) then -Sign(d) else 0)
  {
  }

  lemma SingleHolds(h: Heap, h': Heap, t: Tree, d: bool)
    requires Holds(h, t) && Distinct(t) && t.Node? && Child(t, d).Node? && Child(t, d).balance != -Sign(d)
    requires var r, x := Rotate(t, d), Child(t, d);
             && x.ref in h' && h'[x.ref] == CellOf(r) && t.ref in h' && h'[t.ref] == CellOf(Child(r, !d))
             && forall a :: a in Refs(t) && a != t.ref && a != x.ref ==> a in h && a in h' && h'[a] == h[a]
    ensures Holds(h', Rotate(t, d))
  {
    var r, x := Rotate(t, d), Child(t, d);
    TwoSides(t, d);
    TwoSides(x, d);
    BothHold(h, t, d);
    BothHold(h, x, d);
    Frame(h, h', Child(t, !d));
    Frame(h, h', Child(x, d));
    Frame(h, h', Child(x, !d));
    hide Refs, Distinct;
    BothHold(h', r, d);
    BothHold(h', Child(r, !d), d);
  }

  lemma BothHold(h: Heap, t: Tree, d: bool)
    requires t.Node?
    ensures Holds(h, t) <==> t.ref in h && h[t.ref] == CellOf(t) && Holds(h, Child(t, d)) && Holds(h, Child(t, !d))
  {
  }

  /** The three cells of a double rotation are different, and likewise those of a single one. */
  lemma ThreeCells(h: Heap, t: Tree, d: bool)
    requires Holds(h, t) && Distinct(t) && t.Node? && Child(t, d).Node?
    ensures var x := Child(t, d);
            && t.ref in h && h[t.ref] == CellOf(t) && x.ref in h && h[x.ref] == CellOf(x) && x.ref != t.ref
            && x.ref in Refs(t) && t.ref in Refs(t)
            && Link(h[t.ref], d) == x.ref && Refs(t) <= h.Keys
    ensures var x := Child(t, d);
            var w := Child(x, !d);
            w.Node? ==>
              w.ref in h && h[w.ref] == CellOf(w) && w.ref != t.ref && w.ref != x.ref && Link(h[x.ref], !d) == w.ref
                && w.ref in Refs(t)
  {
    TwoSides(t, d);
    TwoSides(Child(t, d), d);
    BothHold(h, t, d);
    BothHold(h, Child(t, d), d);
    HeldRefs(h, t);
  }

  /** The rotated subtree linked to its parent. */
  lemma RotateRep(h: Heap, h': Heap, t: Tree, path: seq<bool>, d: bool)
    requires Rep(h, t) && Leads(t, path) && At(t, path).Node? && Child(At(t, path), d).Node?
    requires Child(At(t, path), d).balance == -Sign(d) ==> Child(Child(At(t, path), d), !d).Node?
    requires Holds(h', Rotate(At(t, path), d)) && h'.Keys == h.Keys
    requires forall a :: a in h && a !in Refs(At(t, path)) ==> h'[a] == h[a]
    ensures ParentRef(t, path) in h && Link(h[ParentRef(t, path)], ParentDir(path)) == RefOf(At(t, path))
    ensures var z := ParentRef(t, path);
            Rep(h'[z := WithLink(h'[z], ParentDir(path), RefOf(Rotate(At(t, path), d)))],
              Put(t, path, Rotate(At(t, path), d)))
  {
    var u := At(t, path);
    var s := Rotate(u, d);
    var z := ParentRef(t, path);
    ParentLink(h, t, path);
    Sub(h, t, path);
    RotateRefs(u, d);
    HeldRefs(h', s);
    var h'' := h'[z := WithLink(h'[z], ParentDir(path), RefOf(s))];
    NewParent(h, h'', t, path, s);
    hide Holds, Distinct, At, Leads, Refs, Exchanged, ExchangedInTable, Put, Rotate;
    assert Holds(h'', s) by {
      forall r | r in Refs(s) ensures r in h' && r in h'' && h''[r] == h'[r] {
      }
      Frame(h', h'', s);
    }
    PutRep(h, h'', t, path, s);
  }

  // ---------- the loop that moves the balance factors ----------

  function BumpedTo(t: Tree, top: seq<bool>, low: seq<bool>, k: nat): Tree
    requires Leads(t, top) && Leads(At(t, top), low) && k <= |low|
  {
    Put(t, top, Bump(At(t, top), low, k))
  }

  lemma BumpStep(t: Tree, top: seq<bool>, low: seq<bool>, k: nat)
    requires Leads(t, top) && Leads(At(t, top), low) && k < |low|
    ensures Leads(At(t, top), low[..k]) && At(At(t, top), low[..k]).Node?
    ensures var cur, path, u := BumpedTo(t, top, low, k), top + low[..k], At(At(t, top), low[..k]);
            && Leads(cur, path) && At(cur, path) == u
            && Put(cur, path, u.(balance := u.balance + Sign(low[k]))) == BumpedTo(t, top, low, k + 1)
  {
    hide Leads, At, Put, Bump, Child;
    var y := At(t, top);
    var b := Bump(y, low, k);
    BumpMore(y, low, k);
    PutItems(t, top, b);
    Longer(BumpedTo(t, top, low, k), top, low[..k]);
    var u := At(y, low[..k]);
    var u' := u.(balance := u.balance + Sign(low[k]));
    PutLonger(BumpedTo(t, top, low, k), top, low[..k], u');
    PutTwice(t, top, b, Put(b, low[..k], u'));
  }

  lemma BumpNext(t: Tree, low: seq<bool>, k: nat)
    requires Leads(t, low) && k < |low|
    ensures Leads(t, low[..k]) && Leads(t, low[..k + 1]) && At(t, low[..k]).Node?
    ensures At(t, low[..k + 1]) == Child(At(t, low[..k]), low[k])
  {
    PrefixLeads(t, low, k);
    PrefixLeads(t, low, k + 1);
    assert low[..k + 1] == low[..k] + [low[k]];
    OneDown(t, low[..k], low[k]);
  }

  /** A node further up has another address. */
  lemma NotYet(t: Tree, low: seq<bool>, k: nat)
    requires Leads(t, low) && k < |low| && Distinct(t) && At(t, low).Node?
    ensures Leads(t, low[..k]) && At(t, low[..k]).Node? && At(t, low[..k]).ref != At(t, low).ref
  {
    BumpNext(t, low, k);
    Sub(map[], t, low[..k]);
    var u, rest := At(t, low[..k]), low[k..];
    assert low == low[..k] + rest;
    Longer(t, low[..k], rest);
    Sub(map[], Child(u, rest[0]), rest[1..]);
    RefInside(At(t, low));
    TwoSides(u, rest[0]);
  }

  lemma BumpAll(t: Tree, path: seq<bool>, top: seq<bool>, low: seq<bool>, n: Tree)
    requires Leads(t, path) && path == top + low && Leads(t, top)
    ensures Leads(At(t, top), low) && Leads(Put(t, path, n), top)
    ensures At(Put(t, path, n), top) == Put(At(t, top), low, n) && Leads(Put(At(t, top), low, n), low)
    ensures At(Put(At(t, top), low, n), low) == n
    ensures BumpedTo(Put(t, path, n), top, low, |low|) == Put(t, top, Bumped(At(t, top), low, n))
    ensures var c := BumpedTo(Put(t, path, n), top, low, |low|);
            Leads(c, top) && At(c, top) == Bumped(At(t, top), low, n) && forall s :: Put(c, top, s) == Put(t, top, s)
  {
    hide Leads, At, Put, Bump, Child;
    Longer(t, top, low);
    PutLonger(t, top, low, n);
    var y := At(t, top);
    PutItems(t, top, Put(y, low, n));
    PutItems(y, low, n);
    var b := Bumped(y, low, n);
    PutTwice(t, top, Put(y, low, n), b);
    PutItems(t, top, b);
    forall s ensures Put(Put(t, top, b), top, s) == Put(t, top, s) {
      PutTwice(t, top, b, s);
    }
  }

  lemma BumpExtends(t: Tree, top: seq<bool>, low: seq<bool>, n: Tree)
    requires Leads(t, top) && Leads(At(t, top), low) && At(At(t, top), low) == Leaf
    ensures Extends(t, Put(t, top, Bumped(At(t, top), low, n)))
  {
    var y := At(t, top);
    ExtendsPut(y, low, n);
    PutItems(y, low, n);
    ExtendsBump(y, Put(y, low, n), low, |low|);
    ExtendsPut(t, top, Bumped(y, low, n));
  }

  // ---------- the statement of insertion ----------

  /** x stands somewhere in s; otherwise the items are those of the other list. */
  ghost predicate InsertedIn(s: seq<Item>, x: Item, t: seq<Item>) {
    exists i :: 0 <= i <= |s| && t == s[..i] + [x] + s[i..]
  }

  lemma InsertedAt(a: seq<Item>, x: Item, b: seq<Item>)
    ensures InsertedIn(a + b, x, a + [x] + b)
  {
    var s := a + b;
    assert s[..|a|] == a && s[|a|..] == b;
  }

  lemma FirstNode(h: Heap, t: Tree, path: seq<bool>, top: seq<bool>, low: seq<bool>, n: nat, x: Item)
    requires Descent(t, x.key, path, top, low) && At(t, path) == Leaf && RefOf(At(t, top)) == NULL && Rep(h, t)
    ensures t == Leaf && Put(t, path, NewNode(n, x)) == NewNode(n, x) && Avl(NewNode(n, x))
    ensures Increasing(InOrder(NewNode(n, x)))
    ensures |InOrder(t)| == 0 && |InOrder(NewNode(n, x))| == 1 && InsertedIn(InOrder(t), x, InOrder(NewNode(n, x)))
    ensures Extends(t, NewNode(n, x))
  {
    Sub(h, t, top);
    assert top == [] && t == Leaf && path == [];
    InsertedAt([], x, []);
    var none: seq<Item> := [];
    assert none + none == none && none + [x] + none == [x];
    assert InOrder(NewNode(n, x)) == none + [x] + none;
  }

  lemma SomeBelow(h: Heap, t: Tree, key: int, path: seq<bool>, top: seq<bool>, low: seq<bool>)
    requires Descent(t, key, path, top, low) && At(t, path) == Leaf && RefOf(At(t, top)) != NULL
    ensures low != []
  {
    assert low == [] ==> path == top;
  }

  lemma ParentSame(t: Tree, path: seq<bool>, s: Tree)
    requires Leads(t, path)
    ensures Leads(Put(t, path, s), path) && ParentRef(Put(t, path, s), path) == ParentRef(t, path)
  {
    PutItems(t, path, s);
    if path != [] {
      ParentParts(t, path);
      var n := |path| - 1;
      var p := At(t, path[..n]);
      assert path == path[..n] + [path[n]];
      PutLonger(t, path[..n], [path[n]], s);
      PutItems(t, path[..n], Put(p, [path[n]], s));
      assert [path[n]][1..] == [];
      ParentParts(Put(t, path, s), path);
    }
  }

  lemma SameTop(y: Tree, low: seq<bool>, n: Tree)
    requires y.Node? && low != [] && Leads(y, low)
    ensures RefOf(Put(y, low, n)) == y.ref && RefOf(Bumped(y, low, n)) == y.ref
  {
  }

  /** The link that avl_probe chooses by comparing the address. */
  lemma LinkTest(h: Heap, t: Tree, path: seq<bool>)
    requires Rep(h, t) && Leads(t, path) && At(t, path).Node?
    ensures ParentRef(t, path) in h && ParentDir(path) == (RefOf(At(t, path)) != h[ParentRef(t, path)].left)
  {
    ParentLink(h, t, path);
  }

  // ---------- a node of the tree and its address ----------

  lemma {:induction false} FindRef(t: Tree, r: nat) returns (path: seq<bool>)
    requires r in Refs(t)
    ensures Leads(t, path) && At(t, path).Node? && At(t, path).ref == r
  {
    if r == t.ref {
      path := [];
    } else {
      var d := r in Refs(t.right);
      var rest := FindRef(Child(t, d), r);
      path := [d] + rest;
      assert path[1..] == rest;
    }
  }

  // ---------- avl_destroy ----------

  /** The left child of the root becomes the root; balance factors are left as they are. */
  function Tilt(t: Tree): Tree
    requires t.Node? && t.left.Node?
  {
    var q := t.left;
    Node(q.ref, q.left, q.item, q.balance, Node(t.ref, q.right, t.item, t.balance, t.right))
  }

  lemma TiltHolds(h: Heap, h': Heap, t: Tree)
    requires Holds(h, t) && Distinct(t) && t.Node? && t.left.Node?
    requires t.ref in h && t.left.ref in h
    requires h' == h[t.ref := h[t.ref].(left := RefOf(t.left.right))][t.left.ref := h[t.left.ref].(right := t.ref)]
    ensures Holds(h', Tilt(t)) && Distinct(Tilt(t)) && Refs(Tilt(t)) == Refs(t) && InOrder(Tilt(t)) == InOrder(t)
    ensures t.ref != t.left.ref
    ensures h'.Keys == h.Keys
  {
    hide InOrder;
    var q := t.left;
    TwoSides(t, false);
    TwoSides(q, false);
    BothHold(h, t, false);
    BothHold(h, q, false);
    HeldRefs(h, t);
    Frame(h, h', t.right);
    Frame(h, h', q.left);
    Frame(h, h', q.right);
    TiltItems(t);
    hide Holds, Refs, Distinct;
    var u := Tilt(t);
    BothHold(h', u, true);
    BothHold(h', u.right, true);
    TwoSides(u, true);
    TwoSides(u.right, true);
  }

  lemma TiltItems(t: Tree)
    requires t.Node? && t.left.Node?
    ensures InOrder(Tilt(t)) == InOrder(t)
  {
    hide InOrder;
    var q := t.left;
    NodeItems(t);
    NodeItems(q);
    NodeItems(Tilt(t));
    NodeItems(Tilt(t).right);
    assert InOrder(t) == (InOrder(q.left) + [q.item] + InOrder(q.right)) + [t.item] + InOrder(t.right);
    assert InOrder(Tilt(t)) == InOrder(q.left) + [q.item] + (InOrder(q.right) + [t.item] + InOrder(t.right));
  }

  lemma DropRoot(h: Heap, t: Tree)
    requires Holds(h, t) && Distinct(t) && t.Node? && t.left == Leaf && h.Keys == Refs(t) + {HEAD}
    ensures t.ref in h && h[t.ref] == CellOf(t) && Holds(h - {t.ref}, t.right) && Distinct(t.right)
    ensures (h - {t.ref}).Keys == Refs(t.right) + {HEAD}
    ensures InOrder(t) == [t.item] + InOrder(t.right) && |InOrder(t.right)| < |InOrder(t)|
  {
    HeldRefs(h, t.right);
    Frame(h, h - {t.ref}, t.right);
  }
}
