/** Taking a node out of the balanced tree: stacks, cells and the way back up (utils/avl.c). */
module AvlRemove {
  import opened AvlTree
  import opened AvlHeap
  import opened AvlSteps

  /** The arrays pa and da: for every prefix of the path the cell above its end and the
      direction taken there, beginning with the table itself. */
  ghost predicate Stack(t: Tree, path: seq<bool>, pa: seq<nat>, da: seq<bool>) {
    && Leads(t, path) && |pa| == |da| == |path| + 1
    && forall i :: 0 <= i <= |path| ==>
           Leads(t, path[..i]) && pa[i] == ParentRef(t, path[..i]) && da[i] == ParentDir(path[..i])
  }

  lemma StackStart(t: Tree)
    ensures Stack(t, [], [HEAD], [false])
  {
    var none: seq<bool> := [];
    assert none[..0] == none;
  }

  lemma StackMore(t: Tree, path: seq<bool>, pa: seq<nat>, da: seq<bool>, d: bool)
    requires Stack(t, path, pa, da) && At(t, path).Node?
    ensures Stack(t, path + [d], pa + [At(t, path).ref], da + [d])
  {
    var p := path + [d];
    OneDown(t, path, d);
    ParentNext(t, path, d);
    var pa', da' := pa + [At(t, path).ref], da + [d];
    hide At, Leads, ParentRef, ParentDir;
    forall i | 0 <= i <= |p| ensures Leads(t, p[..i]) && pa'[i] == ParentRef(t, p[..i]) && da'[i] == ParentDir(p[..i]) {
      if i <= |path| {
        assert p[..i] == path[..i];
      } else {
        assert p[..i] == p;
      }
    }
  }

  lemma StackLess(t: Tree, path: seq<bool>, pa: seq<nat>, da: seq<bool>)
    requires Stack(t, path, pa, da) && path != []
    ensures Stack(t, path[..|path| - 1], pa[..|path|], da[..|path|])
    ensures pa[|path|] == ParentRef(t, path) && da[|path|] == path[|path| - 1]
  {
    var p := path[..|path| - 1];
    hide At, Leads, ParentRef;
    assert path[..|path|] == path;
    forall i | 0 <= i <= |p|
      ensures Leads(t, p[..i]) && pa[..|path|][i] == ParentRef(t, p[..i]) && da[..|path|][i] == ParentDir(p[..i])
    {
      assert p[..i] == path[..i];
    }
    assert Leads(t, path[..|path| - 1]);
  }

  /** What is above the end of the path does not change with what stands there. */
  lemma StackPut(t: Tree, path: seq<bool>, pa: seq<nat>, da: seq<bool>, s: Tree)
    requires Stack(t, path, pa, da)
    ensures Leads(t, path) && Stack(Put(t, path, s), path, pa, da)
  {
    PutItems(t, path, s);
    forall i | 0 <= i <= |path|
      ensures Leads(Put(t, path, s), path[..i]) && ParentRef(Put(t, path, s), path[..i]) == ParentRef(t, path[..i])
    {
      PrefixSame(t, path, s, i);
    }
  }

  lemma PrefixSame(t: Tree, path: seq<bool>, s: Tree, i: nat)
    requires Leads(t, path) && i <= |path|
    ensures Leads(Put(t, path, s), path[..i]) && Leads(t, path[..i])
    ensures ParentRef(Put(t, path, s), path[..i]) == ParentRef(t, path[..i])
  {
    var front, rest := path[..i], path[i..];
    assert path == front + rest;
    PrefixLeads(t, path, i);
    hide At, Leads, Put, ParentRef, Child;
    Longer(t, front, rest);
    PutLonger(t, front, rest, s);
    ParentSame(t, front, Put(At(t, front), rest, s));
  }

  // ---------- the search ----------

  lemma KeyFound(t: Tree, path: seq<bool>)
    requires Leads(t, path) && At(t, path).Node?
    ensures var u := At(t, path);
            InOrder(t) == (Pre(t, path) + InOrder(u.left)) + [u.item] + (InOrder(u.right) + Post(t, path))
  {
    Split(t, path);
    NodeItems(At(t, path));
    hide InOrder, Pre, Post, At, Leads;
  }

  ghost predicate RemovedFrom(s: seq<Item>, x: Item, t: seq<Item>) {
    exists i :: 0 <= i < |s| && s[i] == x && t == s[..i] + s[i + 1..]
  }

  lemma RemovedAt(a: seq<Item>, x: Item, b: seq<Item>)
    ensures RemovedFrom(a + [x] + b, x, a + b)
  {
    var s := a + [x] + b;
    assert s[|a|] == x && s[..|a|] == a && s[|a| + 1..] == b;
  }

  /** The tree after the node at the end of the path has been taken out. */
  function Taken(t: Tree, path: seq<bool>, m: nat): Tree
    requires Leads(t, path) && At(t, path).Node?
    requires At(t, path).right.Node? ==> Leads(At(t, path).right, Zeros(m)) && At(At(t, path).right, Zeros(m)).Node?
  {
    var p := At(t, path);
    Put(t, path, if p.right.Leaf? then p.left else Successor(p, m))
  }

  function Way(t: Tree, path: seq<bool>, m: nat): seq<bool>
    requires Leads(t, path) && At(t, path).Node?
  {
    if At(t, path).right.Leaf? then path else path + ([true] + Zeros(m))
  }

  /** The node at the end of the path can be taken out with the leftmost node, m steps down, of
      its right subtree. */
  ghost predicate Ready(t: Tree, path: seq<bool>, m: nat) {
    && Leads(t, path) && At(t, path).Node?
    && (At(t, path).right.Node? ==>
         Leads(At(t, path).right, Zeros(m)) && At(At(t, path).right, Zeros(m)).Node?
           && At(At(t, path).right, Zeros(m)).left == Leaf)
  }

  /** The items lose exactly the one taken out, and the tree waits at the end of the way. */
  lemma TakenWaits(t: Tree, path: seq<bool>, m: nat)
    requires Avl(t) && Ready(t, path, m)
    ensures Pending(Taken(t, path, m), Way(t, path, m))
    ensures RemovedFrom(InOrder(t), At(t, path).item, InOrder(Taken(t, path, m)))
    ensures Increasing(InOrder(t)) ==>
              Increasing(InOrder(Taken(t, path, m))) && At(t, path).item.key !in Keys(InOrder(Taken(t, path, m)))
    ensures |InOrder(Taken(t, path, m))| == |InOrder(t)| - 1
  {
    var p := At(t, path);
    var s := if p.right.Leaf? then p.left else Successor(p, m);
    AvlAt(t, path);
    RootTaken(p, m, s);
    ItemsTaken(t, path, s);
    hide Avl, Height, Pending, PendingHeight, At, Leads, Put, Pre, Post, InOrder, Increasing, Keys, RemovedFrom, Zeros,
         Successor;
    PendingPut(t, path, s, if p.right.Leaf? then [] else [true] + Zeros(m));
    assert p.right.Leaf? ==> path + [] == path;
  }

  lemma ItemsTaken(t: Tree, path: seq<bool>, s: Tree)
    requires Leads(t, path) && At(t, path).Node? && InOrder(s) == InOrder(At(t, path).left) + InOrder(At(t, path).right)
    ensures RemovedFrom(InOrder(t), At(t, path).item, InOrder(Put(t, path, s)))
    ensures Increasing(InOrder(t)) ==>
              Increasing(InOrder(Put(t, path, s))) && At(t, path).item.key !in Keys(InOrder(Put(t, path, s)))
    ensures |InOrder(Put(t, path, s))| == |InOrder(t)| - 1
  {
    hide *;
    var p := At(t, path);
    PutItems(t, path, s);
    KeyFound(t, path);
    var a, b := Pre(t, path) + InOrder(p.left), InOrder(p.right) + Post(t, path);
    assert InOrder(Put(t, path, s)) == a + b;
    RemovedAt(a, p.item, b);
    if Increasing(InOrder(t)) {
      RemoveIncreasing(a, p.item, b);
    }
  }

  lemma RootTaken(p: Tree, m: nat, s: Tree)
    requires Avl(p) && Ready(p, [], m) && s == if p.right.Leaf? then p.left else Successor(p, m)
    ensures InOrder(s) == InOrder(p.left) + InOrder(p.right)
    ensures var more := if p.right.Leaf? then [] else [true] + Zeros(m);
              Pending(s, more) && PendingHeight(s, more) == Height(p)
  {
    if p.right.Leaf? {
      RemoveNoRight(p);
      assert InOrder(p.right) == [];
    } else {
      RemoveWithRight(p, m);
    }
  }

  // ---------- the cells of the three cases ----------

  /** No right subtree: the left one moves up. */
  lemma TakeLeft(h: Heap, t: Tree, path: seq<bool>)
    requires Rep(h, t) && Leads(t, path) && At(t, path).Node? && At(t, path).right == Leaf
    ensures var p, z := At(t, path), ParentRef(t, path);
            && z in h && z != p.ref && p.ref in h
            && Rep(h[z := WithLink(h[z], ParentDir(path), RefOf(p.left))] - {p.ref}, Put(t, path, p.left))
  {
    var p, z := At(t, path), ParentRef(t, path);
    ParentLink(h, t, path);
    Sub(h, t, path);
    assert Refs(p) == {p.ref} + Refs(p.left) && p.ref in Refs(p) && p.ref !in Refs(p.left) && p.ref in h;
    var h' := h[z := WithLink(h[z], ParentDir(path), RefOf(p.left))] - {p.ref};
    HeldRefs(h, p.left);
    Frame(h, h', p.left);
    NewParent(h, h', t, path, p.left);
    assert Distinct(p.left);
    hide Holds, Distinct, At, Leads, Refs, Exchanged, ExchangedInTable, Put, ParentRef;
    PutRep(h, h', t, path, p.left);
  }

  /** The cells of the subtree after its successor has taken the place of p. */
  ghost predicate Moved(h: Heap, h': Heap, p: Tree, m: nat)
    requires p.Node? && Leads(p.right, Zeros(m)) && At(p.right, Zeros(m)).Node?
  {
    var s := At(p.right, Zeros(m));
    && s.ref in h'
    && h'[s.ref] == Cell(RefOf(p.left), if m == 0 then RefOf(s.right) else RefOf(p.right), s.item, p.balance)
    && (m > 0 ==> ParentRef(p.right, Zeros(m)) in h && ParentRef(p.right, Zeros(m)) in h' &&
                  h'[ParentRef(p.right, Zeros(m))] == h[ParentRef(p.right, Zeros(m))].(left := RefOf(s.right)))
    && (forall a :: a in Refs(p) && a != p.ref && a != s.ref && (m > 0 ==> a != ParentRef(p.right, Zeros(m))) ==>
           a in h && a in h' && h'[a] == h[a])
  }

  lemma ZerosLast(m: nat)
    requires m > 0
    ensures Zeros(m) != [] && Zeros(m)[|Zeros(m)| - 1] == false && Zeros(m)[..|Zeros(m)| - 1] == Zeros(m - 1)
  {
  }

  lemma MovedHolds(h: Heap, h': Heap, p: Tree, m: nat)
    requires Holds(h, p) && Distinct(p) && p.Node? && Leads(p.right, Zeros(m)) && At(p.right, Zeros(m)).Node?
    requires At(p.right, Zeros(m)).left == Leaf
    requires Moved(h, h', p, m)
    ensures Holds(h', Successor(p, m)) && Distinct(Successor(p, m)) && Refs(Successor(p, m)) == Refs(p) - {p.ref}
  {
    var z, s := Zeros(m), At(p.right, Zeros(m));
    Sub(h, p.right, z);
    var q := Put(p.right, z, s.right);
    PutRefs(p.right, z, s.right);
    TwoSides(s, true);
    assert Refs(s) == {s.ref} + Refs(s.right);
    assert Refs(q) == Refs(p.right) - {s.ref};
    TwoSides(p, true);
    assert Holds(h', q) && Distinct(q) && RefOf(q) == (if m == 0 then RefOf(s.right) else RefOf(p.right)) by {
      MovedRest(h, h', p, m);
    }
    assert Holds(h', p.left) by {
      HeldRefs(h, p.left);
      if m > 0 {
        ParentInside(h, p.right, z);
      }
      Frame(h, h', p.left);
    }
    var r := Successor(p, m);
    hide At, Leads, Put, Zeros;
    RefsLow(p);
    assert Distinct(p.left);
    assert s.ref in Refs(p.right);
    BothHold(h', r, true);
    TwoSides(r, true);
  }

  /** The right subtree without its leftmost node. */
  lemma MovedRest(h: Heap, h': Heap, p: Tree, m: nat)
    requires Holds(h, p) && Distinct(p) && p.Node? && Leads(p.right, Zeros(m)) && At(p.right, Zeros(m)).Node?
    requires At(p.right, Zeros(m)).left == Leaf
    requires Moved(h, h', p, m)
    ensures var q := Put(p.right, Zeros(m), At(p.right, Zeros(m)).right);
            && Holds(h', q) && Distinct(q)
            && RefOf(q) == if m == 0 then RefOf(At(p.right, Zeros(m)).right) else RefOf(p.right)
  {
    var z, s := Zeros(m), At(p.right, Zeros(m));
    Sub(h, p.right, z);
    TwoSides(s, true);
    TwoSides(p, true);
    HeldRefs(h, p.right);
    if m > 0 {
      ParentInside(h, p.right, z);
      ParentAbove(h, p.right, z);
      ZerosLast(m);
    }
    Frame(h, h', s.right);
    if m > 0 {
      assert Exchanged(h, h', p.right, z, s.right) by {
        MovedExchanged(h, h', p, m);
      }
    }
    hide Holds, Distinct, At, Leads, Refs, Exchanged, ParentRef, Moved;
    PutHolds(h, h', p.right, z, s.right);
  }

  lemma ParentAbove(h: Heap, t: Tree, path: seq<bool>)
    requires Leads(t, path) && path != [] && Distinct(t)
    ensures ParentRef(t, path) !in Refs(At(t, path))
  {
    ParentParts(t, path);
    var p := At(t, path[..|path| - 1]);
    Sub(h, t, path[..|path| - 1]);
    TwoSides(p, path[|path| - 1]);
  }

  lemma MovedExchanged(h: Heap, h': Heap, p: Tree, m: nat)
    requires Holds(h, p) && Distinct(p) && p.Node? && m > 0 && Leads(p.right, Zeros(m)) && At(p.right, Zeros(m)).Node?
    requires Moved(h, h', p, m)
    ensures forall r :: r in Refs(p.right) && r !in Refs(At(p.right, Zeros(m))) && r != ParentRef(p.right, Zeros(m)) ==>
              r in h' && r in h && h'[r] == h[r]
    ensures ParentRef(p.right, Zeros(m)) in h && ParentRef(p.right, Zeros(m)) in h'
    ensures h'[ParentRef(p.right, Zeros(m))] ==
              WithLink(h[ParentRef(p.right, Zeros(m))], ParentDir(Zeros(m)), RefOf(At(p.right, Zeros(m)).right))
  {
    ZerosLast(m);
    RefInside(At(p.right, Zeros(m)));
  }

  /** The successor linked to the parent of p, whose cell is freed. */
  lemma TakeSuccessor(h: Heap, h': Heap, t: Tree, path: seq<bool>, m: nat)
    requires Rep(h, t) && Leads(t, path) && At(t, path).Node?
    requires var p := At(t, path);
               Leads(p.right, Zeros(m)) && At(p.right, Zeros(m)).Node? && At(p.right, Zeros(m)).left == Leaf
                 && Moved(h, h', p, m)
    requires h'.Keys == h.Keys && forall a :: a in h && a !in Refs(At(t, path)) ==> h'[a] == h[a]
    ensures var p, z := At(t, path), ParentRef(t, path);
            && z in h && z !in Refs(p) && p.ref in h && p.ref in Refs(p)
            && Rep(h'[z := WithLink(h'[z], ParentDir(path), At(p.right, Zeros(m)).ref)] - {p.ref},
                 Put(t, path, Successor(p, m)))
  {
    var p, z := At(t, path), ParentRef(t, path);
    ParentLink(h, t, path);
    Sub(h, t, path);
    RefInside(p);
    HeldRefs(h, p);
    MovedHolds(h, h', p, m);
    var s := Successor(p, m);
    var h'' := h'[z := WithLink(h'[z], ParentDir(path), RefOf(s))] - {p.ref};
    NewParent(h, h'', t, path, s);
    hide Holds, Distinct, At, Leads, Refs, Exchanged, ExchangedInTable, Put, ParentRef, Moved, Successor;
    Frame(h', h'', s);
    PutRep(h, h'', t, path, s);
  }

  // ---------- the stack on the way to the successor ----------

  lemma ZerosMore(m: nat)
    ensures Zeros(m) + [false] == Zeros(m + 1)
  {
  }

  lemma {:induction false} StackZeros(t: Tree, path: seq<bool>, pa: seq<nat>, da: seq<bool>, rs: seq<nat>, m: nat)
    requires Stack(t, path, pa, da) && |rs| == m
    requires forall i: nat :: i < m ==>
               Leads(At(t, path), Zeros(i)) && At(At(t, path), Zeros(i)).Node? && At(At(t, path), Zeros(i)).ref == rs[i]
    ensures Stack(t, path + Zeros(m), pa + rs, da + Zeros(m))
    decreases m
  {
    if m == 0 {
      assert path + Zeros(0) == path && pa + rs == pa && da + Zeros(0) == da;
    } else {
      var n := m - 1;
      StackZeros(t, path, pa, da, rs[..n], n);
      Longer(t, path, Zeros(n));
      StackMore(t, path + Zeros(n), pa + rs[..n], da + Zeros(n), false);
      ZerosMore(n);
      assert path + Zeros(n) + [false] == path + Zeros(m) && da + Zeros(n) + [false] == da + Zeros(m);
      assert pa + rs[..n] + [rs[n]] == pa + rs;
    }
  }

  /** The nodes passed on the way to the leftmost one. */
  ghost predicate Spine(t: Tree, rs: seq<nat>, m: nat) {
    |rs| == m && Leads(t, Zeros(m)) && forall i: nat :: i < m ==>
      Leads(t, Zeros(i)) && At(t, Zeros(i)).Node? && At(t, Zeros(i)).ref == rs[i]
  }

  lemma SpineMore(h: Heap, t: Tree, rs: seq<nat>, m: nat)
    requires Spine(t, rs, m) && At(t, Zeros(m)).Node? && Holds(h, t) && Distinct(t)
    ensures var u := At(t, Zeros(m));
            && Spine(t, rs + [u.ref], m + 1) && Leads(t, Zeros(m + 1)) && At(t, Zeros(m + 1)) == u.left && u.ref in h
            && h[u.ref] == CellOf(u)
            && (RefOf(u.left) == NULL <==> u.left == Leaf) && ParentRef(t, Zeros(m + 1)) == u.ref
            && (u.left.Node? ==>
                   u.left.ref in h && h[u.left.ref] == CellOf(u.left) && u.left.ref in Refs(t) && u.left.ref != u.ref)
            && u.ref in Refs(t)
  {
    Sub(h, t, Zeros(m));
    LeftCell(h, At(t, Zeros(m)));
    hide Holds, Distinct, Refs, At, Leads, Zeros, ParentRef, CellOf;
    OneDown(t, Zeros(m), false);
    ZerosMore(m);
    ParentNext(t, Zeros(m), false);
    forall i: nat | i < m + 1 ensures Leads(t, Zeros(i)) {
    }
  }

  lemma LeftCell(h: Heap, u: Tree)
    requires Holds(h, u) && Distinct(u) && u.Node?
    ensures u.ref in h && h[u.ref] == CellOf(u) && u.ref in Refs(u) && (RefOf(u.left) == NULL <==> u.left == Leaf)
    ensures u.left.Node? ==>
              u.left.ref in h && h[u.left.ref] == CellOf(u.left) && u.left.ref in Refs(u) && u.left.ref != u.ref
  {
    RefInside(u.left);
  }

  /** The stack after the second and third case. */
  lemma StackTaken(t: Tree, path: seq<bool>, pa: seq<nat>, da: seq<bool>, rs: seq<nat>, m: nat)
    requires Stack(t, path, pa, da) && Ready(t, path, m) && At(t, path).right.Node? && Spine(At(t, path).right, rs, m)
    ensures Leads(t, path)
    ensures Stack(Taken(t, path, m), Way(t, path, m), pa + [At(At(t, path).right, Zeros(m)).ref] + rs, da + [true]
              + Zeros(m))
  {
    var p, z := At(t, path), Zeros(m);
    var s := Successor(p, m);
    StackPut(t, path, pa, da, s);
    PutItems(t, path, s);
    var u := Put(t, path, s);
    StackMore(u, path, pa, da, true);
    OneDown(u, path, true);
    forall i: nat | i < m
      ensures Leads(s.right, Zeros(i)) && At(s.right, Zeros(i)).Node? && At(s.right, Zeros(i)).ref == rs[i]
    {
      SpineSame(p.right, m, At(p.right, z).right, i);
    }
    StackZeros(u, path + [true], pa + [s.ref], da + [true], rs, m);
    assert path + [true] + z == path + ([true] + z);
  }

  lemma SpineSame(t: Tree, m: nat, s: Tree, i: nat)
    requires Leads(t, Zeros(m)) && i < m
    ensures Leads(t, Zeros(i)) && At(t, Zeros(i)).Node? && Leads(Put(t, Zeros(m), s), Zeros(i))
    ensures At(Put(t, Zeros(m), s), Zeros(i)).Node?
    ensures At(Put(t, Zeros(m), s), Zeros(i)).ref == At(t, Zeros(i)).ref
  {
    var u := Put(t, Zeros(m), s);
    PutItems(t, Zeros(m), s);
    assert Zeros(m)[..i + 1] == Zeros(i + 1) && Zeros(m)[..i] == Zeros(i);
    PrefixLeads(t, Zeros(m), i);
    PrefixLeads(u, Zeros(m), i);
    PrefixSame(t, Zeros(m), s, i + 1);
    ZerosMore(i);
    hide At, Leads, Put, Zeros, ParentRef;
    ParentNext(t, Zeros(i), false);
    ParentNext(u, Zeros(i), false);
  }

  // ---------- one step of the way up ----------

  lemma StepUp(t: Tree, path: seq<bool>, d: bool)
    requires Pending(t, path + [d]) && Leads(t, path)
    ensures At(t, path).Node?
    ensures var y := At(t, path);
            var u := Lighter(y, d);
            && (u.balance < -1 || u.balance > 1 ==> u.balance == -2 * Sign(d) && TwoHigher(u, !d) && Child(u, !d).Node?)
            && InOrder(Put(t, path, Fix(u))) == InOrder(t)
            && if u.balance == -Sign(d)
                 || (u.balance == -2 * Sign(d) && Child(u, !d).balance == 0) then Avl(Put(t, path, Fix(u)))
               else Pending(Put(t, path, Fix(u)), path)
  {
    PendingAt(t, path, d);
    var y := At(t, path);
    PendingNode(y, d);
    DeleteRepairs(y, d);
    var u := Lighter(y, d);
    var s := Fix(u);
    hide Avl, Height, Pending, PendingHeight, At, Leads, Put, InOrder, Fix, TwoHigher, Child;
    PendingUp(t, path, d, s);
    Split(t, path);
    PutItems(t, path, s);
  }

  lemma PendingNode(y: Tree, d: bool)
    requires Pending(y, [d])
    ensures y.Node? && -1 <= y.balance <= 1
  {
  }
}
