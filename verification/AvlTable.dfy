/** The balanced tree changed in place (utils/avl.c). */
module AvlTable {
  import opened AvlTree
  import opened AvlHeap
  import opened AvlSteps
  import opened AvlRemove

  class Table {
    var h: Heap
    var count: nat
    var generation: nat
    ghost var tree: Tree

    ghost predicate Valid()
      reads this
    {
      Rep(h, tree) && Avl(tree) && Increasing(InOrder(tree)) && count == |InOrder(tree)|
    }

    ghost function Items(): seq<Item>
      reads this
    {
      InOrder(tree)
    }

    /** avl_create. */
    constructor ()
      ensures Valid() && Items() == [] && generation == 0
    {
      h := map[HEAD := Cell(NULL, NULL, Item(0, 0), 0)];
      count, generation, tree := 0, 0, Leaf;
    }

    /** avl_find. */
    method Find(key: int) returns (r: nat)
      requires Valid()
      ensures r != NULL ==> r in h && h[r].item.key == key && h[r].item in Items()
      ensures r == NULL <==> key !in Keys(Items())
    {
      ghost var path: seq<bool> := [];
      r := h[HEAD].left;
      while r != NULL
        invariant Leads(tree, path) && r == RefOf(At(tree, path)) && Between(tree, path, key)
        invariant (r != NULL ==> r in h && h[r] == CellOf(At(tree, path)))
        decreases At(tree, path)
      {
        var c := h[r];
        HasKey(tree, path);
        if key == c.item.key {
          return;
        }
        SearchDown(tree, path, key);
        OneDown(tree, path, key > c.item.key);
        path := path + [key > c.item.key];
        Sub(h, tree, path);
        r := if key < c.item.key then c.left else c.right;
      }
      Sub(h, tree, path);
      NoKey(tree, path, key);
    }

    /** The rotations shared by avl_probe and avl_delete; side d of y is two levels higher. The
        caller links the result w to the parent. */
    method Rotate(y: nat, d: bool, ghost t: Tree) returns (w: nat)
      requires Holds(h, t) && Distinct(t) && t.Node? && y == t.ref && Child(t, d).Node?
      requires Child(t, d).balance == -Sign(d) ==>
                 Child(Child(t, d), !d).Node? && -1 <= Child(Child(t, d), !d).balance <= 1
      modifies this`h
      ensures SameItems(old(h), h) && forall a :: a in old(h) && a !in Refs(t) ==> h[a] == old(h)[a]
      ensures Holds(h, AvlTree.Rotate(t, d)) && w == RefOf(AvlTree.Rotate(t, d))
    {
      hide Holds, Distinct, Refs;
      ghost var h0 := h;
      ThreeCells(h, t, d);
      var x := Link(h[y], d);
      if h[x].balance == -Sign(d) {
        w := RotateTwice(y, x, d, t);
      } else {
        w := x;
        h := h[y := WithLink(h[y], d, Link(h[x], !d))];
        h := h[x := WithLink(h[x], !d, y)];
        if h[x].balance == 0 {
          h := h[x := h[x].(balance := -Sign(d))][y := h[y].(balance := Sign(d))];
        } else {
          h := h[x := h[x].(balance := 0)][y := h[y].(balance := 0)];
        }
        SingleHolds(h0, h, t, d);
      }
    }

    method RotateTwice(y: nat, x: nat, d: bool, ghost t: Tree) returns (w: nat)
      requires Holds(h, t) && Distinct(t) && t.Node? && y == t.ref && Child(t, d).Node? && x == Child(t, d).ref
      requires Child(t, d).balance == -Sign(d) && Child(Child(t, d), !d).Node?
      requires -1 <= Child(Child(t, d), !d).balance <= 1
      modifies this`h
      ensures SameItems(old(h), h) && forall a :: a in old(h) && a !in Refs(t) ==> h[a] == old(h)[a]
      ensures Holds(h, AvlTree.Rotate(t, d)) && w == RefOf(AvlTree.Rotate(t, d))
    {
      ghost var h0 := h;
      ThreeCells(h, t, d);
      DoubleCells(t, d);
      hide Holds, Distinct, Refs, Child, AvlTree.Rotate, CellOf;
      w := Link(h[x], !d);
      RelinkTwice(y, x, w, d);
      SetFactors(y, x, w, d);
      DoubleHolds(h0, h, t, d);
    }

    /** The links of a double rotation, in the order of the source. */
    method RelinkTwice(y: nat, x: nat, w: nat, d: bool)
      requires y in h && x in h && w in h && y != x && x != w && w != y
      modifies this`h
      ensures SameItems(old(h), h) && forall a :: a in old(h) && a != x && a != y && a != w ==> h[a] == old(h)[a]
      ensures h[x] == WithLink(old(h)[x], !d, Link(old(h)[w], d)) && h[y] == WithLink(old(h)[y], d, Link(old(h)[w], !d))
      ensures h[w] == WithLink(WithLink(old(h)[w], d, x), !d, y)
    {
      h := h[x := WithLink(h[x], !d, Link(h[w], d))];
      h := h[w := WithLink(h[w], d, x)];
      h := h[y := WithLink(h[y], d, Link(h[w], !d))];
      h := h[w := WithLink(h[w], !d, y)];
    }

    /** The balance factors after a double rotation. */
    method SetFactors(y: nat, x: nat, w: nat, d: bool)
      requires y in h && x in h && w in h && y != x && x != w && w != y && -1 <= h[w].balance <= 1
      modifies this`h
      ensures SameItems(old(h), h) && forall a :: a in old(h) && a != x && a != y && a != w ==> h[a] == old(h)[a]
      ensures h[w] == old(h)[w].(balance := 0)
      ensures h[x] == old(h)[x].(balance := if old(h)[w].balance == -Sign(d) then Sign(d) else 0)
      ensures h[y] == old(h)[y].(balance := if old(h)[w].balance == Sign(d) then -Sign(d) else 0)
    {
      if h[w].balance == Sign(d) {
        h := h[x := h[x].(balance := 0)][y := h[y].(balance := -Sign(d))];
      } else if h[w].balance == 0 {
        h := h[x := h[x].(balance := 0)][y := h[y].(balance := 0)];
      } else {
        h := h[x := h[x].(balance := Sign(d))][y := h[y].(balance := 0)];
      }
      h := h[w := h[w].(balance := 0)];
    }

    /** The first loop of avl_probe: q and dir say where a new node belongs, y is the last uneven
        node on the way or the root, z its parent and low the way from y. */
    method Descend(key: int)
      returns (p: nat, q: nat, dir: bool, z: nat, y: nat, low: seq<bool>, ghost path: seq<bool>, ghost top: seq<bool>)
      requires Valid() && count < SIZE_LIMIT
      ensures p != NULL ==> p in h && h[p].item.key == key && h[p].item in Items() && key in Keys(Items())
      ensures p == NULL ==> Descent(tree, key, path, top, low) && At(tree, path) == Leaf && |low| < AVL_MAX_HEIGHT
      ensures p == NULL ==>
                q == ParentRef(tree, path) && dir == ParentDir(path) && z == ParentRef(tree, top)
                  && y == RefOf(At(tree, top))
    {
      hide Rep, Avl, Increasing, InOrder, Descent, Leads, At, ParentRef;
      path, top, low := [], [], [];
      q, dir, z := HEAD, false, HEAD;
      Start(h, tree, key);
      y := h[HEAD].left;
      p := y;
      while p != NULL
        invariant Descent(tree, key, path, top, low) && Leads(tree, path) && Leads(tree, top) && |low| <= |path|
        invariant |low| < AVL_MAX_HEIGHT
        invariant q == ParentRef(tree, path) && dir == ParentDir(path) && z == ParentRef(tree, top)
        invariant y == RefOf(At(tree, top))
        invariant p == RefOf(At(tree, path)) && (p == NULL <==> At(tree, path) == Leaf)
        invariant p != NULL ==> p in h && h[p] == CellOf(At(tree, path))
        decreases At(tree, path)
      {
        var c := h[p];
        if key == c.item.key {
          HasKey(tree, path);
          return;
        }
        Room(tree, path);
        DescentDown(tree, key, path, top, low);
        dir := key > c.item.key;
        ParentNext(tree, path, dir);
        if c.balance != 0 {
          z, y, low := q, p, [];
          top := path;
        }
        assert |low| < AVL_MAX_HEIGHT;
        assert c.balance != 0 ==> low + [dir] == [dir];
        low := low + [dir];
        path := path + [dir];
        q, p := p, Link(c, dir);
        CellAt(h, tree, path);
      }
    }

    /** The second loop of avl_probe, from y down to the new node. */
    method BumpAlong(y: nat, low: seq<bool>, n: nat, ghost t: Tree, ghost top: seq<bool>)
      requires Rep(h, t) && Leads(t, top) && y == RefOf(At(t, top)) && Leads(At(t, top), low)
      requires At(At(t, top), low).Node?
      requires n == At(At(t, top), low).ref
      modifies this`h
      ensures Rep(h, BumpedTo(t, top, low, |low|)) && SameItems(old(h), h)
    {
      hide Rep, Leads, At, BumpedTo;
      BumpNone(t, top, low);
      ghost var yt := At(t, top);
      var p, k := y, 0;
      SubDistinct(h, t, top);
      assert low[..|low|] == low;
      while p != n
        invariant 0 <= k <= |low| && Leads(yt, low[..k]) && p == RefOf(At(yt, low[..k]))
        invariant Rep(h, BumpedTo(t, top, low, k)) && SameItems(old(h), h)
        decreases |low| - k
      {
        BumpStep(t, top, low, k);
        ghost var u := At(yt, low[..k]);
        BalanceRep(h, BumpedTo(t, top, low, k), top + low[..k], u.balance + Sign(low[k]));
        BumpNext(yt, low, k);
        if low[k] {
          h := h[p := h[p].(balance := h[p].balance + 1)];
        } else {
          h := h[p := h[p].(balance := h[p].balance - 1)];
        }
        p := Link(h[p], low[k]);
        k := k + 1;
      }
      if k < |low| {
        NotYet(yt, low, k);
      }
    }

    /** avl_probe; n is the address of the new node, NULL if there is no memory for it. */
    method Probe(x: Item, n: nat) returns (r: nat)
      requires Valid() && count < SIZE_LIMIT && (n == NULL || (n > HEAD && n !in h))
      modifies this
      ensures Valid()
      ensures x.key in Keys(old(Items())) ==>
                unchanged(this) && r != NULL && r in h && h[r].item.key == x.key && h[r].item in Items()
      ensures x.key !in Keys(old(Items())) && n == NULL ==> unchanged(this) && r == NULL
      ensures x.key !in Keys(old(Items())) && n != NULL ==>
                r == n && r in h && h[r].item == x && InsertedIn(old(Items()), x, Items())
      ensures old(generation) <= generation <= old(generation) + 1
      ensures (generation == old(generation) ==> Extends(old(tree), tree))
      ensures Stay(old(h), h) && old(h).Keys <= h.Keys
    {
      hide Rep, Avl, Increasing, InOrder, Descent, Leads, At, ParentRef, Extends, Keys, InsertedIn;
      var p, q, dir, z, y, low;
      ghost var path, top;
      p, q, dir, z, y, low, path, top := Descend(x.key);
      ExtendsSelf(tree);
      if p != NULL {
        return p;
      }
      DescentEnds(tree, x, path, top, low);
      if n == NULL {
        return NULL;
      }
      GraftRep(h, tree, path, n, x);
      if y == NULL {
        FirstNode(h, tree, path, top, low, n, x);
      } else {
        SomeBelow(h, tree, x.key, path, top, low);
      }
      h := h[q := WithLink(h[q], dir, n)];
      h := h[n := Cell(NULL, NULL, x, 0)];
      count := count + 1;
      r := n;
      if y == NULL {
        tree := NewNode(n, x);
        return;
      }
      Balance(x, n, z, y, low, path, top);
    }

    /** The end of avl_probe: balance factors, and at most one rotation. */
    method Balance(x: Item, n: nat, z: nat, y: nat, low: seq<bool>, ghost path: seq<bool>, ghost top: seq<bool>)
      requires Avl(tree) && Increasing(InOrder(tree)) && Descent(tree, x.key, path, top, low) && At(tree, path) == Leaf
      requires Leads(tree, path) && Leads(tree, top) && count == |InOrder(tree)| + 1
      requires z == ParentRef(tree, top) && y == RefOf(At(tree, top)) && y != NULL && low != [] && path == top + low
      requires n > HEAD && n in h && h[n] == Cell(NULL, NULL, x, 0) && Rep(h, Put(tree, path, NewNode(n, x)))
      modifies this
      ensures Valid() && InsertedIn(old(Items()), x, Items()) && SameItems(old(h), h)
      ensures old(generation) <= generation <= old(generation) + 1
      ensures (generation == old(generation) ==> Extends(old(tree), tree))
    {
      hide Rep, Avl, Increasing, InOrder, Descent, Leads, At, ParentRef, Extends, Keys, InsertedIn;
      ghost var leaf := NewNode(n, x);
      ghost var t1 := Put(tree, path, leaf);
      BumpAll(tree, path, top, low, leaf);
      InsertShape(tree, path, top, low, n, x);
      InsertResult(tree, path, top, low, n, x);
      TopNode(h, t1, tree, top, low, leaf);
      BumpAlong(y, low, n, t1, top);
      ghost var cur := BumpedTo(t1, top, low, |low|);
      ghost var u := Bumped(At(tree, top), low, leaf);
      InsertedAt(Pre(tree, path), x, Post(tree, path));
      BumpExtends(tree, top, low, leaf);
      ParentSame(tree, top, u);
      CellAt(h, cur, top);
      if h[y].balance == -2 {
        RotateAndLink(z, y, false, cur, top);
        generation := generation + 1;
      } else if h[y].balance == 2 {
        RotateAndLink(z, y, true, cur, top);
        generation := generation + 1;
      }
      tree := Inserted(tree, top, low, n, x);
    }

    method RotateAndLink(z: nat, y: nat, d: bool, ghost cur: Tree, ghost top: seq<bool>)
      requires Rep(h, cur) && Leads(cur, top) && At(cur, top).Node? && z == ParentRef(cur, top) && y == At(cur, top).ref
      requires TwoHigher(At(cur, top), d)
      modifies this`h
      ensures Child(At(cur, top), d).Node?
      ensures (Child(At(cur, top), d).balance == -Sign(d) ==> Child(Child(At(cur, top), d), !d).Node?)
      ensures Rep(h, Put(cur, top, AvlTree.Rotate(At(cur, top), d))) && SameItems(old(h), h)
    {
      hide Rep, Leads, At, ParentRef, AvlTree.Rotate, Put;
      ghost var u, h0 := At(cur, top), h;
      HeavyShape(u, d);
      MiddleBalance(u, d);
      SubHeld(h, cur, top);
      LinkTest(h, cur, top);
      hide TwoHigher;
      var w := Rotate(y, d, u);
      ParentOutside(h0, cur, top);
      RotateRep(h0, h, cur, top, d);
      h := h[z := WithLink(h[z], y != h[z].left, w)];
    }

    /** The first loop of avl_delete, which remembers the way in pa and da. */
    method Trace(key: int) returns (p: nat, pa: seq<nat>, da: seq<bool>, ghost path: seq<bool>)
      requires Valid() && count < SIZE_LIMIT
      ensures p == NULL ==> key !in Keys(Items())
      ensures p != HEAD
      ensures p != NULL ==>
                Stack(tree, path, pa, da) && Leads(tree, path) && At(tree, path).Node? && p == At(tree, path).ref
                  && At(tree, path).item.key == key
      ensures p != NULL ==> p in h && h[p] == CellOf(At(tree, path)) && |pa| < AVL_MAX_HEIGHT && key in Keys(Items())
    {
      hide Rep, Avl, Increasing, InOrder, Leads, At, ParentRef, Between, Keys, Stack;
      pa, da, path := [], [], [];
      p := HEAD;
      var cmp := -1;
      Start(h, tree, key);
      AtStart(tree, key);
      while cmp != 0
        invariant |da| == |pa| <= AVL_MAX_HEIGHT
        invariant pa == [] ==> cmp == -1 && p == HEAD && path == []
        invariant pa != [] ==>
                    Leads(tree, path) && At(tree, path).Node? && p == At(tree, path).ref && p in h
                      && h[p] == CellOf(At(tree, path))
        invariant pa != [] ==>
                    cmp == Compare(key, At(tree, path).item.key) && Between(tree, path, key)
                      && Stack(tree, path, pa, da) && |pa| < AVL_MAX_HEIGHT
        decreases AVL_MAX_HEIGHT - |pa|
      {
        var dir := cmp > 0;
        if pa != [] {
          SearchDown(tree, path, key);
          OneDown(tree, path, dir);
          StackMore(tree, path, pa, da, dir);
          path := path + [dir];
        }
        assert |pa| < AVL_MAX_HEIGHT;
        assert pa == [] ==> pa + [p] == [HEAD] && da + [dir] == [false];
        pa, da := pa + [p], da + [dir];
        CellAt(h, tree, path);
        p := Link(h[p], dir);
        if p == NULL {
          NoKey(tree, path, key);
          return;
        }
        StackSize(tree, path, pa, da);
        cmp := Compare(key, h[p].item.key);
      }
      HasKey(tree, path);
      CellAt(h, tree, path);
      HeadNotInside(h, tree, path);
    }

    /** The node at p unlinked and freed; the stack then leads to the place that lost a level. */
    method TakeOut(p: nat, pa0: seq<nat>, da0: seq<bool>, ghost path: seq<bool>)
      returns (pa: seq<nat>, da: seq<bool>, ghost m: nat)
      requires Valid() && count < SIZE_LIMIT && Stack(tree, path, pa0, da0) && Leads(tree, path) && At(tree, path).Node?
      requires p == At(tree, path).ref && p in h && h[p] == CellOf(At(tree, path)) && |pa0| < AVL_MAX_HEIGHT
      modifies this`h
      ensures Ready(tree, path, m) && Rep(h, Taken(tree, path, m))
      ensures Stack(Taken(tree, path, m), Way(tree, path, m), pa, da)
      ensures h.Keys == old(h).Keys - {p} && Stay(old(h), h)
    {
      hide Rep, Avl, Increasing, InOrder, Leads, At, ParentRef, Stack, Put, Zeros;
      ghost var pt := At(tree, path);
      SubHeld(h, tree, path);
      StackTop(tree, path, pa0, da0);
      var k := |pa0|;
      LeafLinks(h, pt);
      if h[p].right == NULL {
        m := 0;
        TakeLeft(h, tree, path);
        h := h[pa0[k - 1] := WithLink(h[pa0[k - 1]], da0[k - 1], h[p].left)];
        h := h - {p};
        pa, da := pa0, da0;
        StackPut(tree, path, pa, da, pt.left);
      } else {
        pa, da, m := TakeSucc(p, pa0, da0, path);
      }
    }

    /** The node at p has a right subtree, whose leftmost node takes its place. */
    method TakeSucc(p: nat, pa0: seq<nat>, da0: seq<bool>, ghost path: seq<bool>)
      returns (pa: seq<nat>, da: seq<bool>, ghost m: nat)
      requires Valid() && count < SIZE_LIMIT && Stack(tree, path, pa0, da0) && Leads(tree, path) && At(tree, path).Node?
      requires At(tree, path).right.Node?
      requires p == At(tree, path).ref && p in h && h[p] == CellOf(At(tree, path)) && |pa0| < AVL_MAX_HEIGHT
      modifies this`h
      ensures Ready(tree, path, m) && Rep(h, Taken(tree, path, m))
      ensures Stack(Taken(tree, path, m), Way(tree, path, m), pa, da)
      ensures h.Keys == old(h).Keys - {p} && Stay(old(h), h)
    {
      hide Rep, Avl, Increasing, InOrder, Leads, At, ParentRef, Stack, Put, Zeros, Moved, Spine;
      ghost var pt, h0 := At(tree, path), h;
      SubHeld(h, tree, path);
      StackTop(tree, path, pa0, da0);
      RightRoot(h, pt);
      var k := |pa0|;
      var r := h[p].right;
      var s;
      ghost var rs: seq<nat>;
      if h[r].left == NULL {
        m, rs, s := 0, [], r;
        MoveNear(p, r, pt);
        pa, da := pa0 + [r], da0 + [true];
      } else {
        pa, da, r, s, m, rs := LeftSpine(r, pa0 + [NULL], da0 + [true], path);
        MoveFar(p, r, s, pt, m, rs);
        pa := pa[k := s];
        assert pa == pa0 + [s] + rs;
      }
      assert m == 0 ==> pa0 + [s] == pa0 + [s] + rs && da0 + [true] == da0 + [true] + Zeros(m);
      assert pa == pa0 + [s] + rs && da == da0 + [true] + Zeros(m);
      TakeSuccessor(h0, h, tree, path, m);
      h := h[pa0[k - 1] := WithLink(h[pa0[k - 1]], da0[k - 1], s)];
      h := h - {p};
      StackTaken(tree, path, pa0, da0, rs, m);
    }

    /** The third case: s leaves its parent r and takes over the links and the factor of p. */
    /** The right child, which has no left child, takes the place of its parent. */
    method MoveNear(p: nat, r: nat, ghost t: Tree)
      requires Holds(h, t) && Distinct(t) && t.Node? && t.right.Node? && p == t.ref && p in h && h[p] == CellOf(t)
      requires r == t.right.ref && r in h && r != p && h[r] == CellOf(t.right)
      modifies this`h
      ensures Moved(old(h), h, t, 0) && SameItems(old(h), h)
      ensures forall a :: a in old(h) && a !in Refs(t) ==> h[a] == old(h)[a]
    {
      hide Holds, Distinct, Refs, Moved;
      ghost var h0 := h;
      h := h[r := h[r].(left := h[p].left)];
      h := h[r := h[r].(balance := h[p].balance)];
      MovedNext(h0, h, t);
    }

    method MoveFar(p: nat, r: nat, s: nat, ghost t: Tree, ghost m: nat, ghost rs: seq<nat>)
      requires Holds(h, t) && Distinct(t) && t.Node? && m > 0 && Spine(t.right, rs, m) && Leads(t.right, Zeros(m))
      requires At(t.right, Zeros(m)).Node?
      requires p == t.ref && p in h && h[p] == CellOf(t) && |rs| == m && r == rs[m - 1]
      requires s == At(t.right, Zeros(m)).ref
      modifies this`h
      ensures Moved(old(h), h, t, m) && SameItems(old(h), h)
      ensures forall a :: a in old(h) && a !in Refs(t) ==> h[a] == old(h)[a]
    {
      MovedCells(h, t, rs, m);
      hide Holds, Distinct, Refs, Spine, Leads, At, Zeros, Moved, ParentRef;
      ghost var h0 := h;
      h := h[s := h[s].(left := h[p].left)];
      h := h[r := h[r].(left := h[s].right)];
      h := h[s := h[s].(right := h[p].right)];
      h := h[s := h[s].(balance := h[p].balance)];
      MovedFar(h0, h, t, m, r);
    }

    /** Down to the leftmost node s of the right subtree, remembering the nodes passed. */
    method LeftSpine(r0: nat, pa0: seq<nat>, da0: seq<bool>, ghost path: seq<bool>)
      returns (pa: seq<nat>, da: seq<bool>, r: nat, s: nat, ghost m: nat, ghost rs: seq<nat>)
      requires Valid() && count < SIZE_LIMIT && Leads(tree, path) && At(tree, path).Node? && At(tree, path).right.Node?
      requires |pa0| == |path| + 2 && r0 == At(tree, path).right.ref && r0 in h && h[r0].left != NULL
      requires Holds(h, At(tree, path).right) && Distinct(At(tree, path).right)
      ensures m > 0 && Spine(At(tree, path).right, rs, m) && pa == pa0 + rs && da == da0 + Zeros(m) && |rs| == m
      ensures r == rs[m - 1]
      ensures Leads(At(tree, path).right, Zeros(m)) && At(At(tree, path).right, Zeros(m)).Node?
      ensures s == At(At(tree, path).right, Zeros(m)).ref
      ensures At(At(tree, path).right, Zeros(m)).left == Leaf
    {
      hide Rep, Avl, Increasing, InOrder, Leads, At, ParentRef, Stack, Put, Zeros, Holds, Distinct, Refs, Spine;
      ghost var t := At(tree, path).right;
      SpineStart(t);
      SpineMore(h, t, [], 0);
      SpineRoom(tree, path, 0);
      ZerosMore(0);
      assert |pa0| < AVL_MAX_HEIGHT;
      assert [] + [r0] == [r0];
      pa, da, r, s := pa0 + [r0], da0 + [false], r0, h[r0].left;
      m, rs := 1, [r0];
      SpineMore(h, t, rs, m);
      while h[s].left != NULL
        invariant m > 0 && |rs| == m && Spine(t, rs, m) && pa == pa0 + rs && da == da0 + Zeros(m) && r == rs[m - 1]
        invariant Leads(t, Zeros(m)) && At(t, Zeros(m)).Node? && s == At(t, Zeros(m)).ref && s in h
        invariant h[s] == CellOf(At(t, Zeros(m)))
        decreases At(t, Zeros(m))
      {
        r := s;
        SpineMore(h, t, rs, m);
        SpineRoom(tree, path, m);
        ZerosMore(m);
        assert |pa| < AVL_MAX_HEIGHT;
        pa, da := pa + [r], da + [false];
        s := h[r].left;
        m, rs := m + 1, rs + [r];
        SpineMore(h, t, rs, m);
      }
      SpineMore(h, t, rs, m);
    }

    /** One step of the loop at the end of avl_delete: the subtree in direction d of y has lost
        a level; stop tells whether the subtree of y has kept its height. */
    method StepBack(y: nat, d: bool, z: nat, zd: bool, ghost t: Tree, ghost path: seq<bool>)
      returns (stop: bool, ghost t': Tree)
      requires Rep(h, t) && Leads(t, path) && Pending(t, path + [d]) && y == RefOf(At(t, path))
      requires z == ParentRef(t, path) && zd == ParentDir(path)
      modifies this`h
      ensures Rep(h, t') && InOrder(t') == InOrder(t) && SameItems(old(h), h)
      ensures exists s :: t' == Put(t, path, s)
      ensures if stop then Avl(t') else Pending(t', path)
    {
      StepUp(t, path, d);
      CellAt(h, t, path);
      hide Rep, Leads, At, ParentRef, Put, Avl, Pending, InOrder, Height;
      ghost var u := Lighter(At(t, path), d);
      ghost var cur := Put(t, path, u);
      PutAgain(t, path, u);
      ParentSame(t, path, u);
      Lighten(y, d, t, path);
      stop, t' := false, cur;
      if h[y].balance == -Sign(d) {
        stop := true;
      } else if h[y].balance == -2 * Sign(d) {
        CellAt(h, cur, path);
        ChildCell(h, cur, path, !d);
        var x := Link(h[y], !d);
        stop := h[x].balance == 0;
        RotateUnder(z, zd, y, !d, cur, path);
        t' := Put(t, path, Fix(u));
      }
      assert t' == Put(t, path, Fix(u));
    }

    method Lighten(y: nat, d: bool, ghost t: Tree, ghost path: seq<bool>)
      requires Rep(h, t) && Leads(t, path) && At(t, path).Node? && y == At(t, path).ref
      modifies this`h
      ensures Rep(h, Put(t, path, Lighter(At(t, path), d))) && SameItems(old(h), h)
      ensures y in h && h[y].balance == At(t, path).balance - Sign(d)
    {
      hide Rep, Leads, At, Put;
      BalanceRep(h, t, path, Lighter(At(t, path), d).balance);
      h := h[y := h[y].(balance := h[y].balance - Sign(d))];
    }

    method RotateUnder(z: nat, zd: bool, y: nat, d: bool, ghost cur: Tree, ghost path: seq<bool>)
      requires Rep(h, cur) && Leads(cur, path) && At(cur, path).Node? && z == ParentRef(cur, path)
      requires zd == ParentDir(path)
      requires y == At(cur, path).ref && TwoHigher(At(cur, path), d)
      modifies this`h
      ensures Child(At(cur, path), d).Node?
      ensures (Child(At(cur, path), d).balance == -Sign(d) ==> Child(Child(At(cur, path), d), !d).Node?)
      ensures Rep(h, Put(cur, path, AvlTree.Rotate(At(cur, path), d))) && SameItems(old(h), h)
    {
      hide Rep, Leads, At, ParentRef, AvlTree.Rotate, Put;
      ghost var u, h0 := At(cur, path), h;
      HeavyShape(u, d);
      MiddleBalance(u, d);
      SubHeld(h, cur, path);
      hide TwoHigher;
      var w := Rotate(y, d, u);
      ParentOutside(h0, cur, path);
      RotateRep(h0, h, cur, path, d);
      h := h[z := WithLink(h[z], zd, w)];
    }

    /** The loop at the end of avl_delete, from the lost level upwards. */
    method Unwind(pa: seq<nat>, da: seq<bool>, ghost t0: Tree, ghost path0: seq<bool>) returns (ghost t: Tree)
      requires Rep(h, t0) && Pending(t0, path0) && Stack(t0, path0, pa, da)
      modifies this`h
      ensures Rep(h, t) && Avl(t) && InOrder(t) == InOrder(t0) && SameItems(old(h), h)
    {
      hide Rep, Leads, At, ParentRef, Put, Avl, Pending, InOrder, Stack;
      t := t0;
      ghost var path := path0;
      StackTop(t0, path0, pa, da);
      var k := |pa| - 1;
      assert pa[..k + 1] == pa && da[..k + 1] == da;
      while k > 0
        invariant k == |path| < |pa| == |da|
        invariant Rep(h, t) && Pending(t, path) && Stack(t, path, pa[..k + 1], da[..k + 1]) && InOrder(t) == InOrder(t0)
        invariant SameItems(old(h), h)
      {
        StackTop(t, path, pa[..k + 1], da[..k + 1]);
        StackLess(t, path, pa[..k + 1], da[..k + 1]);
        ghost var up := path[..k - 1];
        assert path == up + [path[k - 1]];
        assert pa[..k + 1][..k] == pa[..k] && da[..k + 1][..k] == da[..k];
        StackTop(t, up, pa[..k], da[..k]);
        ParentNext(t, up, path[k - 1]);
        var stop;
        ghost var t';
        stop, t' := StepBack(pa[k], da[k], pa[k - 1], da[k - 1], t, up);
        if stop {
          t := t';
          return;
        }
        ghost var s :| t' == Put(t, up, s);
        StackPut(t, up, pa[..k], da[..k], s);
        t, path := t', up;
        k := k - 1;
      }
      PendingNone(t, path);
    }

    /** avl_destroy: without a stack, every item is passed to the callback in order and every
        cell is freed. */
    method Destroy() returns (destroyed: seq<Item>)
      requires Valid()
      modifies this
      ensures destroyed == old(Items()) && h.Keys == {HEAD}
    {
      hide Avl, Increasing, Holds, Distinct, Refs;
      destroyed := [];
      var p := h[HEAD].left;
      LeafSame(tree);
      while p != NULL
        invariant Holds(h, tree) && Distinct(tree) && h.Keys == Refs(tree) + {HEAD} && p == RefOf(tree)
        invariant p == NULL ==> tree == Leaf
        invariant destroyed + InOrder(tree) == old(Items())
        decreases |InOrder(tree)|, if tree.Node? then |InOrder(tree.left)| else 0
      {
        RootCell(h, tree);
        if h[p].left == NULL {
          DropRoot(h, tree);
          destroyed := destroyed + [h[p].item];
          var q := h[p].right;
          h := h - {p};
          p := q;
          tree := tree.right;
        } else {
          var q := h[p].left;
          ghost var h0 := h;
          h := h[p := h[p].(left := h[q].right)];
          h := h[q := h[q].(right := p)];
          TiltHolds(h0, h, tree);
          p := q;
          tree := Tilt(tree);
        }
        LeafSame(tree);
      }
      NoRefs();
    }

    /** avl_delete. */
    method Delete(key: int) returns (found: bool, x: Item)
      requires Valid() && count < SIZE_LIMIT
      modifies this
      ensures Valid()
      ensures found <==> key in Keys(old(Items()))
      ensures !found ==> unchanged(this)
      ensures found ==> x.key == key && RemovedFrom(old(Items()), x, Items()) && key !in Keys(Items())
      ensures found ==> count == old(count) - 1 && generation == old(generation) + 1
      ensures Stay(old(h), h)
      ensures (found ==> exists p :: p in old(h) && p != HEAD && old(h)[p].item == x && h.Keys == old(h).Keys - {p})
    {
      hide Rep, Leads, At, ParentRef, Put, Avl, Pending, InOrder, Stack, Keys, RemovedFrom, Increasing;
      found, x := false, Item(key, 0);
      var p, pa, da;
      ghost var path;
      p, pa, da, path := Trace(key);
      if p == NULL {
        return;
      }
      found, x := true, h[p].item;
      ghost var m;
      pa, da, m := TakeOut(p, pa, da, path);
      TakenWaits(tree, path, m);
      ghost var taken, way := Taken(tree, path, m), Way(tree, path, m);
      ghost var t := Unwind(pa, da, taken, way);
      count := count - 1;
      generation := generation + 1;
      tree := t;
    }
  }

  lemma LeafSame(t: Tree)
    requires Distinct(t)
    ensures RefOf(t) == NULL ==> t == Leaf
  {
  }

  lemma NoRefs()
    ensures Refs(Leaf) == {}
  {
  }

  lemma RootCell(h: Heap, t: Tree)
    requires Holds(h, t) && Distinct(t) && t.Node?
    ensures t.ref in h && h[t.ref] == CellOf(t) && (RefOf(t.left) == NULL <==> t.left == Leaf)
    ensures t.left.Node? ==> t.left.ref in h && h[t.left.ref] == CellOf(t.left) && t.left.ref != t.ref
    ensures t.left.Node? ==> |InOrder(t.left.left)| < |InOrder(t.left)|
  {
    LeftCell(h, t);
  }

  lemma HeadNotInside(h: Heap, t: Tree, path: seq<bool>)
    requires Rep(h, t) && Leads(t, path) && At(t, path).Node?
    ensures At(t, path).ref != HEAD
  {
    Sub(h, t, path);
  }

  lemma PendingNone(t: Tree, path: seq<bool>)
    requires Pending(t, path) && path == []
    ensures Avl(t)
  {
  }

  lemma PutAgain(t: Tree, path: seq<bool>, u: Tree)
    requires Leads(t, path)
    ensures Leads(Put(t, path, u), path) && At(Put(t, path, u), path) == u
    ensures forall s :: Put(Put(t, path, u), path, s) == Put(t, path, s)
  {
    PutItems(t, path, u);
    forall s ensures Put(Put(t, path, u), path, s) == Put(t, path, s) {
      PutTwice(t, path, u, s);
    }
  }

  lemma ChildCell(h: Heap, t: Tree, path: seq<bool>, d: bool)
    requires Rep(h, t) && Leads(t, path) && At(t, path).Node? && Child(At(t, path), d).Node?
    ensures var u, c := At(t, path), Child(At(t, path), d);
            u.ref in h && Link(h[u.ref], d) == c.ref && c.ref in h && h[c.ref] == CellOf(c)
  {
    Sub(h, t, path);
    BothHold(h, At(t, path), d);
  }

  lemma SpineStart(t: Tree)
    ensures Spine(t, [], 0) && Leads(t, Zeros(0)) && At(t, Zeros(0)) == t && Zeros(0) == []
  {
  }

  lemma SpineRoom(t: Tree, path: seq<bool>, m: nat)
    requires Avl(t) && |InOrder(t)| < SIZE_LIMIT && Leads(t, path) && At(t, path).Node?
    requires Leads(At(t, path).right, Zeros(m)) && At(At(t, path).right, Zeros(m)).Node?
    ensures |path| + m + 2 < AVL_MAX_HEIGHT
  {
    OneDown(t, path, true);
    Longer(t, path + [true], Zeros(m));
    Room(t, path + [true] + Zeros(m));
  }

  lemma RightRoot(h: Heap, t: Tree)
    requires Holds(h, t) && Distinct(t) && t.Node? && t.right.Node?
    ensures t.right.ref in h && h[t.right.ref] == CellOf(t.right) && t.right.ref != t.ref && Holds(h, t.right)
    ensures Distinct(t.right)
    ensures CellOf(t.right).left == NULL <==> t.right.left == Leaf
    ensures Leads(t.right, Zeros(0)) && At(t.right, Zeros(0)) == t.right && Spine(t.right, [], 0) && Zeros(0) == []
  {
    RefInside(t.right);
    LeftCell(h, t.right);
  }

  lemma MovedNext(h: Heap, h': Heap, p: Tree)
    requires Holds(h, p) && Distinct(p) && p.Node? && p.right.Node? && p.ref in h && p.right.ref in h
    requires h' == h[p.right.ref := h[p.right.ref].(left := RefOf(p.left), balance := p.balance)]
    ensures Leads(p.right, Zeros(0)) && At(p.right, Zeros(0)) == p.right && Moved(h, h', p, 0)
    ensures h'.Keys == h.Keys && forall a :: a in h && a !in Refs(p) ==> h'[a] == h[a]
  {
    HeldRefs(h, p);
    RefInside(p.right);
  }

  lemma MovedCells(h: Heap, p: Tree, rs: seq<nat>, m: nat)
    requires Holds(h, p) && Distinct(p) && p.Node? && m > 0 && Spine(p.right, rs, m) && At(p.right, Zeros(m)).Node?
    ensures var s := At(p.right, Zeros(m));
            && s.ref in h && h[s.ref] == CellOf(s) && s.ref != p.ref && rs[m - 1] == ParentRef(p.right, Zeros(m))
            && rs[m - 1] in h && rs[m - 1] != s.ref && rs[m - 1] != p.ref
  {
    ZerosLast(m);
    Sub(h, p.right, Zeros(m));
    ParentInside(h, p.right, Zeros(m));
    ParentAbove(h, p.right, Zeros(m));
    HeldRefs(h, p.right);
    RefInside(At(p.right, Zeros(m)));
  }

  lemma MovedFar(h: Heap, h': Heap, p: Tree, m: nat, r: nat)
    requires Holds(h, p) && Distinct(p) && p.Node? && m > 0 && Leads(p.right, Zeros(m)) && At(p.right, Zeros(m)).Node?
    requires r == ParentRef(p.right, Zeros(m)) && r in h
    requires At(p.right, Zeros(m)).ref in h && At(p.right, Zeros(m)).ref != r
    requires var s := At(p.right, Zeros(m));
             h' == h[s.ref := Cell(RefOf(p.left), RefOf(p.right), s.item, p.balance)][r :=
               h[r].(left := RefOf(s.right))]
    ensures Moved(h, h', p, m)
    ensures h'.Keys == h.Keys && forall a :: a in h && a !in Refs(p) ==> h'[a] == h[a]
  {
    HeldRefs(h, p);
    Sub(h, p.right, Zeros(m));
    RefInside(At(p.right, Zeros(m)));
    ZerosLast(m);
    ParentInside(h, p.right, Zeros(m));
  }

  function Compare(a: int, b: int): int {
    if a < b then -1 else if a > b then 1 else 0
  }

  lemma AtStart(t: Tree, key: int)
    ensures Leads(t, []) && At(t, []) == t && Between(t, [], key) && Stack(t, [], [HEAD], [false])
  {
    StackStart(t);
  }

  lemma StackSize(t: Tree, path: seq<bool>, pa: seq<nat>, da: seq<bool>)
    requires Avl(t) && |InOrder(t)| < SIZE_LIMIT && Stack(t, path, pa, da) && At(t, path).Node?
    ensures |pa| < AVL_MAX_HEIGHT
  {
    Room(t, path);
  }

  lemma StackTop(t: Tree, path: seq<bool>, pa: seq<nat>, da: seq<bool>)
    requires Stack(t, path, pa, da)
    ensures |pa| == |da| == |path| + 1 && Leads(t, path) && pa[|pa| - 1] == ParentRef(t, path)
    ensures da[|pa| - 1] == ParentDir(path)
  {
    assert path[..|path|] == path;
  }

  lemma LeafLinks(h: Heap, t: Tree)
    requires t.Node? && Distinct(t)
    ensures CellOf(t).right == NULL <==> t.right == Leaf
  {
  }

  lemma MiddleBalance(y: Tree, d: bool)
    requires TwoHigher(y, d)
    ensures (Child(y, d).Node? && Child(Child(y, d), !d).Node?) ==> -1 <= Child(Child(y, d), !d).balance <= 1
  {
    var x := Child(y, d);
    assert Avl(x);
    assert x.Node? ==> Avl(Child(x, !d));
  }

  lemma SubHeld(h: Heap, t: Tree, path: seq<bool>)
    requires Rep(h, t) && Leads(t, path)
    ensures Holds(h, At(t, path)) && Distinct(At(t, path))
  {
    Sub(h, t, path);
  }

  lemma ParentOutside(h: Heap, t: Tree, path: seq<bool>)
    requires Rep(h, t) && Leads(t, path)
    ensures ParentRef(t, path) in h && ParentRef(t, path) !in Refs(At(t, path))
  {
    ParentLink(h, t, path);
  }

  lemma TopNode(h: Heap, t1: Tree, t: Tree, top: seq<bool>, low: seq<bool>, leaf: Tree)
    requires Leads(t, top) && Leads(t1, top) && low != [] && Leads(At(t, top), low)
    requires At(t1, top) == Put(At(t, top), low, leaf)
    ensures At(t, top).Node? && RefOf(At(t1, top)) == RefOf(At(t, top))
    ensures RefOf(Bumped(At(t, top), low, leaf)) == RefOf(At(t, top))
  {
    SameTop(At(t, top), low, leaf);
  }

  lemma BumpNone(t: Tree, top: seq<bool>, low: seq<bool>)
    requires Leads(t, top) && Leads(At(t, top), low)
    ensures BumpedTo(t, top, low, 0) == t && low[..0] == [] && Leads(At(t, top), []) && At(At(t, top), []) == At(t, top)
  {
    PutBack(t, top);
  }

  lemma SubDistinct(h: Heap, t: Tree, path: seq<bool>)
    requires Rep(h, t) && Leads(t, path)
    ensures Distinct(At(t, path))
  {
    Sub(h, t, path);
  }

  lemma DescentEnds(t: Tree, x: Item, path: seq<bool>, top: seq<bool>, low: seq<bool>)
    requires Descent(t, x.key, path, top, low) && At(t, path) == Leaf && Increasing(InOrder(t))
    ensures Leads(t, path) && Leads(t, top) && path == top + low && x.key !in Keys(InOrder(t))
  {
    NoKey(t, path, x.key);
  }

  lemma Start(h: Heap, t: Tree, key: int)
    requires Rep(h, t)
    ensures HEAD in h && h[HEAD].left == RefOf(t) && Descent(t, key, [], [], []) && Leads(t, [])
    ensures ParentRef(t, []) == HEAD && At(t, []) == t
    ensures (RefOf(t) == NULL <==> t == Leaf) && (t.Node? ==> t.ref in h && h[t.ref] == CellOf(t))
  {
    var none: seq<bool> := [];
    assert none + none == none;
  }

  lemma CellAt(h: Heap, t: Tree, path: seq<bool>)
    requires Rep(h, t) && Leads(t, path)
    ensures var u := At(t, path); (RefOf(u) == NULL <==> u == Leaf) && (u.Node? ==> u.ref in h && h[u.ref] == CellOf(u))
  {
    Sub(h, t, path);
  }
}
