/** Height-balanced search trees as values: paths, rotations and heights (utils/avl.c). */
module AvlTree {
  /** What the comparison function looks at is the key. */
  datatype Item = Item(key: int, value: int)

  datatype Tree = Leaf | Node(ref: nat, left: Tree, item: Item, balance: int, right: Tree)

  function InOrder(t: Tree): seq<Item> {
    match t
    case Leaf => []
    case Node(_, l, x, _, r) => InOrder(l) + [x] + InOrder(r)
  }

  ghost predicate Increasing(s: seq<Item>) {
    forall i, j :: 0 <= i < j < |s| ==> s[i].key < s[j].key
  }

  function Height(t: Tree): nat {
    if t.Leaf? then 0
    else if Height(t.left) < Height(t.right) then 1 + Height(t.right)
    else 1 + Height(t.left)
  }

  /** Exact balance factors within -1 .. 1. */
  predicate Avl(t: Tree) {
    t.Leaf? || (t.balance == Height(t.right) - Height(t.left) && -1 <= t.balance <= 1 && Avl(t.left) && Avl(t.right))
  }

  // ---------- how high a tree can be ----------

  /** The fewest nodes of a balanced tree of height h. */
  function MinNodes(h: nat): nat {
    if h < 2 then h else MinNodes(h - 1) + MinNodes(h - 2) + 1
  }

  lemma MinNodesFour(h: nat, a: nat, b: nat)
    requires MinNodes(h) == a && MinNodes(h + 1) == b
    ensures MinNodes(h + 4) == 2 * a + 3 * b + 4 && MinNodes(h + 5) == 3 * a + 5 * b + 7
  {
    assert MinNodes(h + 2) == a + b + 1;
    assert MinNodes(h + 3) == a + 2 * b + 2;
  }

  lemma MinNodesTwelve(h: nat, a: nat, b: nat)
    requires MinNodes(h) == a && MinNodes(h + 1) == b
    ensures MinNodes(h + 12) == 89 * a + 144 * b + 232 && MinNodes(h + 13) == 144 * a + 233 * b + 376
  {
    hide MinNodes;
    MinNodesFour(h, a, b);
    MinNodesFour(h + 4, 2 * a + 3 * b + 4, 3 * a + 5 * b + 7);
    MinNodesFour(h + 8, 13 * a + 21 * b + 33, 21 * a + 34 * b + 54);
  }

  lemma {:induction false} MinNodesGrow(g: nat, h: nat)
    requires g <= h
    ensures MinNodes(g) <= MinNodes(h)
    decreases h
  {
    if g < h {
      MinNodesGrow(g, h - 1);
    }
  }

  lemma {:induction false} EnoughNodes(t: Tree)
    requires Avl(t)
    ensures |InOrder(t)| >= MinNodes(Height(t))
  {
    if t.Node? {
      EnoughNodes(t.left);
      EnoughNodes(t.right);
      var h, l, r := Height(t), Height(t.left), Height(t.right);
      assert (l + 1 == h && r + 2 >= h) || (r + 1 == h && l + 2 >= h);
      assert |InOrder(t)| == |InOrder(t.left)| + 1 + |InOrder(t.right)|;
      hide Avl, Height, InOrder;
      if h >= 2 {
        MinNodesGrow(h - 2, l);
        MinNodesGrow(h - 2, r);
      }
    }
  }

  const AVL_MAX_HEIGHT: nat := 92

  /** Below 2^64 items no path fills the arrays of AVL_MAX_HEIGHT entries. */
  lemma HeightBound(t: Tree)
    requires Avl(t) && |InOrder(t)| < 0x1_0000_0000_0000_0000
    ensures Height(t) < AVL_MAX_HEIGHT
  {
    hide *;
    EnoughNodes(t);
    if Height(t) >= AVL_MAX_HEIGHT {
      NinetyTwo();
      MinNodesGrow(AVL_MAX_HEIGHT, Height(t));
    }
  }

  lemma NinetyTwo()
    ensures MinNodes(AVL_MAX_HEIGHT) == 19740274219868223166
  {
    FirstTwo();
    hide MinNodes;
    MinNodesFour(0, 0, 1);
    MinNodesFour(4, 7, 12);
    MinNodesTwelve(8, 54, 88);
    MinNodesTwelve(20, 17710, 28656);
    MinNodesTwelve(32, 5702886, 9227464);
    MinNodesTwelve(44, 1836311902, 2971215072);
    MinNodesTwelve(56, 591286729878, 956722026040);
    MinNodesTwelve(68, 190392490709134, 308061521170128);
    MinNodesTwelve(80, 61305790721611590, 99194853094755496);
  }

  lemma FirstTwo()
    ensures MinNodes(0) == 0 && MinNodes(1) == 1
  {
  }

  // ---------- paths; true goes right ----------

  function Child(t: Tree, d: bool): Tree
    requires t.Node?
  {
    if d then t.right else t.left
  }

  function WithChild(t: Tree, d: bool, s: Tree): (r: Tree)
    requires t.Node?
    ensures r.Node? && Child(r, d) == s && Child(r, !d) == Child(t, !d)
  {
    if d then t.(right := s) else t.(left := s)
  }

  predicate Leads(t: Tree, path: seq<bool>) {
    path == [] || (t.Node? && Leads(Child(t, path[0]), path[1..]))
  }

  function At(t: Tree, path: seq<bool>): Tree
    requires Leads(t, path)
  {
    if path == [] then t else At(Child(t, path[0]), path[1..])
  }

  function Put(t: Tree, path: seq<bool>, s: Tree): Tree
    requires Leads(t, path)
  {
    if path == [] then s else WithChild(t, path[0], Put(Child(t, path[0]), path[1..], s))
  }

  /** The items before the subtree at the end of the path. */
  function Pre(t: Tree, path: seq<bool>): seq<Item>
    requires Leads(t, path)
  {
    if path == [] then []
    else if path[0] then InOrder(t.left) + [t.item] + Pre(t.right, path[1..])
    else Pre(t.left, path[1..])
  }

  function Post(t: Tree, path: seq<bool>): seq<Item>
    requires Leads(t, path)
  {
    if path == [] then []
    else if path[0] then Post(t.right, path[1..])
    else Post(t.left, path[1..]) + [t.item] + InOrder(t.right)
  }

  lemma {:induction false} Split(t: Tree, path: seq<bool>)
    requires Leads(t, path)
    ensures InOrder(t) == Pre(t, path) + InOrder(At(t, path)) + Post(t, path)
  {
    if path != [] {
      Split(Child(t, path[0]), path[1..]);
    }
  }

  lemma {:induction false} PutAt(t: Tree, path: seq<bool>, s: Tree)
    requires Leads(t, path)
    ensures Leads(Put(t, path, s), path) && At(Put(t, path, s), path) == s
    ensures Pre(Put(t, path, s), path) == Pre(t, path) && Post(Put(t, path, s), path) == Post(t, path)
  {
    if path != [] {
      PutAt(Child(t, path[0]), path[1..], s);
    }
  }

  /** Replacing a subtree replaces its items and nothing else. */
  lemma PutItems(t: Tree, path: seq<bool>, s: Tree)
    requires Leads(t, path)
    ensures Leads(Put(t, path, s), path) && At(Put(t, path, s), path) == s
    ensures InOrder(Put(t, path, s)) == Pre(t, path) + InOrder(s) + Post(t, path)
    ensures Pre(Put(t, path, s), path) == Pre(t, path) && Post(Put(t, path, s), path) == Post(t, path)
  {
    PutAt(t, path, s);
    Split(Put(t, path, s), path);
  }

  lemma {:induction false} Longer(t: Tree, path: seq<bool>, more: seq<bool>)
    requires Leads(t, path)
    ensures Leads(t, path + more) <==> Leads(At(t, path), more)
    ensures Leads(At(t, path), more) ==> At(t, path + more) == At(At(t, path), more)
  {
    if path == [] {
      assert path + more == more;
    } else {
      assert (path + more)[0] == path[0] && (path + more)[1..] == path[1..] + more;
      Longer(Child(t, path[0]), path[1..], more);
    }
  }

  lemma {:induction false} PutLonger(t: Tree, path: seq<bool>, more: seq<bool>, s: Tree)
    requires Leads(t, path) && Leads(At(t, path), more)
    ensures Leads(t, path + more) && Put(t, path + more, s) == Put(t, path, Put(At(t, path), more, s))
  {
    if path == [] {
      assert path + more == more;
    } else {
      assert (path + more)[0] == path[0] && (path + more)[1..] == path[1..] + more;
      PutLonger(Child(t, path[0]), path[1..], more, s);
    }
  }

  lemma {:induction false} PutTwice(t: Tree, path: seq<bool>, s: Tree, u: Tree)
    requires Leads(t, path)
    ensures Leads(Put(t, path, s), path) && Put(Put(t, path, s), path, u) == Put(t, path, u)
  {
    if path != [] {
      PutTwice(Child(t, path[0]), path[1..], s, u);
    }
  }

  lemma {:induction false} PutBack(t: Tree, path: seq<bool>)
    requires Leads(t, path)
    ensures Put(t, path, At(t, path)) == t
  {
    if path != [] {
      PutBack(Child(t, path[0]), path[1..]);
    }
  }

  /** One step further down: what comes before and after. */
  lemma {:induction false} OneDown(t: Tree, path: seq<bool>, d: bool)
    requires Leads(t, path) && At(t, path).Node?
    ensures Leads(t, path + [d]) && At(t, path + [d]) == Child(At(t, path), d)
    ensures Pre(t, path + [d]) == if d then Pre(t, path) + InOrder(At(t, path).left) + [At(t, path).item]
              else Pre(t, path)
    ensures Post(t, path + [d]) == if d then Post(t, path)
              else [At(t, path).item] + InOrder(At(t, path).right) + Post(t, path)
  {
    var p := path + [d];
    if path == [] {
      assert p[1..] == [];
    } else {
      assert p[0] == path[0] && p[1..] == path[1..] + [d];
      OneDown(Child(t, path[0]), path[1..], d);
    }
  }

  lemma {:induction false} PathBound(t: Tree, path: seq<bool>)
    requires Leads(t, path)
    ensures |path| + Height(At(t, path)) <= Height(t)
  {
    if path != [] {
      PathBound(Child(t, path[0]), path[1..]);
    }
  }

  lemma {:induction false} PrefixLeads(t: Tree, path: seq<bool>, i: nat)
    requires Leads(t, path) && i <= |path|
    ensures Leads(t, path[..i])
    ensures i < |path| ==> At(t, path[..i]).Node?
  {
    if i > 0 {
      assert path[..i][0] == path[0] && path[..i][1..] == path[1..][..i - 1];
      PrefixLeads(Child(t, path[0]), path[1..], i - 1);
    }
  }

  lemma {:induction false} AvlAt(t: Tree, path: seq<bool>)
    requires Avl(t) && Leads(t, path)
    ensures Avl(At(t, path))
  {
    if path != [] {
      AvlAt(Child(t, path[0]), path[1..]);
    }
  }

  /** A subtree may be exchanged for a balanced one of the same height. */
  lemma {:induction false} PutAvl(t: Tree, path: seq<bool>, s: Tree)
    requires Avl(t) && Leads(t, path) && Avl(s) && Height(s) == Height(At(t, path))
    ensures Avl(Put(t, path, s)) && Height(Put(t, path, s)) == Height(t)
  {
    if path != [] {
      PutAvl(Child(t, path[0]), path[1..], s);
    }
  }

  // ---------- rotations ----------

  function Sign(d: bool): int {
    if d then 1 else -1
  }

  /** The rotations of avl_probe and avl_delete; d is the side that is two levels higher. */
  function Rotate(y: Tree, d: bool): Tree
    requires y.Node? && Child(y, d).Node?
    requires Child(y, d).balance == -Sign(d) ==> Child(Child(y, d), !d).Node?
  {
    var x, s := Child(y, d), Sign(d);
    if x.balance == -s then
      var w := Child(x, !d);
      var x' := WithChild(x, !d, Child(w, d)).(balance := if w.balance == -s then s else 0);
      var y' := WithChild(y, d, Child(w, !d)).(balance := if w.balance == s then -s else 0);
      WithChild(WithChild(w, d, x'), !d, y').(balance := 0)
    else
      var y' := WithChild(y, d, Child(x, !d)).(balance := if x.balance == 0 then s else 0);
      WithChild(x, !d, y').(balance := if x.balance == 0 then -s else 0)
  }

  /** Balanced but for its root, where one side is two levels higher. */
  ghost predicate TwoHigher(y: Tree, d: bool) {
    y.Node? && Avl(y.left) && Avl(y.right) && Height(Child(y, d)) == Height(Child(y, !d)) + 2
  }

  lemma HeavyShape(y: Tree, d: bool)
    requires TwoHigher(y, d)
    ensures Child(y, d).Node?
    ensures Child(y, d).balance == -Sign(d) ==> Child(Child(y, d), !d).Node?
  {
  }

  /** A rotation repairs the balance, keeps the items in order, and takes one level off
      unless the higher child was even. */
  lemma RotateRepairs(y: Tree, d: bool)
    requires TwoHigher(y, d)
    ensures Child(y, d).Node? && (Child(y, d).balance == -Sign(d) ==> Child(Child(y, d), !d).Node?)
    ensures Avl(Rotate(y, d)) && InOrder(Rotate(y, d)) == InOrder(y)
    ensures Height(Rotate(y, d)) == Height(y) - if Child(y, d).balance == 0 then 0 else 1
  {
    HeavyShape(y, d);
    RotateItems(y, d);
    RotateBalance(y, d);
  }

  lemma RotateBalance(y: Tree, d: bool)
    requires TwoHigher(y, d)
    requires Child(y, d).Node? && (Child(y, d).balance == -Sign(d) ==> Child(Child(y, d), !d).Node?)
    ensures Avl(Rotate(y, d))
    ensures Height(Rotate(y, d)) == Height(y) - if Child(y, d).balance == 0 then 0 else 1
  {
    if Child(y, d).balance == -Sign(d) {
      DoubleHeights(y, d);
      DoubleBalance(y, d, Height(Child(y, !d)));
    } else {
      SingleBalance(y, d);
    }
  }

  /** The heights of the four subtrees that a double rotation moves. */
  lemma DoubleHeights(y: Tree, d: bool)
    requires TwoHigher(y, d) && Child(y, d).Node? && Child(y, d).balance == -Sign(d) && Child(Child(y, d), !d).Node?
    ensures Fourfold(y, d, Height(Child(y, !d))) && Height(y) == Height(Child(y, !d)) + 3
  {
    var x := Child(y, d);
    assert Avl(x) && Avl(Child(x, !d));
  }

  ghost predicate Fourfold(y: Tree, d: bool, h: nat)
    requires y.Node? && Child(y, d).Node? && Child(Child(y, d), !d).Node?
  {
    var x := Child(y, d);
    var w := Child(x, !d);
    && Balanced(Child(y, !d), h) && Balanced(Child(x, d), h) && -1 <= w.balance <= 1
    && Balanced(Child(w, d), if w.balance == -Sign(d) then h - 1 else h)
    && Balanced(Child(w, !d), if w.balance == Sign(d) then h - 1 else h)
  }

  ghost predicate Balanced(t: Tree, h: int) {
    Avl(t) && Height(t) == h
  }

  lemma DoubleBalance(y: Tree, d: bool, h: nat)
    requires y.Node? && Child(y, d).Node? && Child(y, d).balance == -Sign(d) && Child(Child(y, d), !d).Node?
    requires Fourfold(y, d, h)
    ensures Balanced(Rotate(y, d), h + 2)
  {
    var r := Rotate(y, d);
    hide Balanced, Avl, Height;
    JoinBalanced(Child(r, d), h + 1);
    JoinBalanced(Child(r, !d), h + 1);
    JoinBalanced(r, h + 2);
  }

  lemma JoinBalanced(t: Tree, h: nat)
    requires t.Node? && -1 <= t.balance <= 1 && h > 0
    requires Balanced(t.left, if t.balance > 0 then h - 2 else h - 1)
    requires Balanced(t.right, if t.balance < 0 then h - 2 else h - 1)
    ensures Balanced(t, h)
  {
  }

  lemma SingleBalance(y: Tree, d: bool)
    requires TwoHigher(y, d) && Child(y, d).Node? && Child(y, d).balance != -Sign(d)
    ensures Avl(Rotate(y, d))
    ensures Height(Rotate(y, d)) == Height(y) - if Child(y, d).balance == 0 then 0 else 1
  {
    var x, h := Child(y, d), Height(Child(y, !d));
    var r := Rotate(y, d);
    var even := x.balance == 0;
    assert Height(y) == h + 3;
    assert Balanced(Child(y, !d), h) && Balanced(Child(x, d), h + 1)
      && Balanced(Child(x, !d), if even then h + 1 else h);
    JoinBalanced(Child(r, !d), if even then h + 2 else h + 1);
    JoinBalanced(r, if even then h + 3 else h + 2);
  }

  lemma RotateItems(y: Tree, d: bool)
    requires y.Node? && Child(y, d).Node?
    requires Child(y, d).balance == -Sign(d) ==> Child(Child(y, d), !d).Node?
    ensures InOrder(Rotate(y, d)) == InOrder(y)
  {
    var x := Child(y, d);
    if x.balance == -Sign(d) {
      var w := Child(x, !d);
      var a, b := InOrder(w.left), InOrder(w.right);
      if d {
        var l, r := InOrder(y.left), InOrder(x.right);
        assert InOrder(y) == l + [y.item] + ((a + [w.item] + b) + [x.item] + r);
        assert InOrder(Rotate(y, d)) == (l + [y.item] + a) + [w.item] + (b + [x.item] + r);
      } else {
        var l, r := InOrder(x.left), InOrder(y.right);
        assert InOrder(y) == (l + [x.item] + (a + [w.item] + b)) + [y.item] + r;
        assert InOrder(Rotate(y, d)) == (l + [x.item] + a) + [w.item] + (b + [y.item] + r);
      }
    } else {
      var a, b := InOrder(x.left), InOrder(x.right);
      if d {
        assert InOrder(y) == InOrder(y.left) + [y.item] + (a + [x.item] + b);
        assert InOrder(Rotate(y, d)) == (InOrder(y.left) + [y.item] + a) + [x.item] + b;
      } else {
        assert InOrder(y) == (a + [x.item] + b) + [y.item] + InOrder(y.right);
        assert InOrder(Rotate(y, d)) == a + [x.item] + (b + [y.item] + InOrder(y.right));
      }
    }
  }

  // ---------- insertion ----------

  /** All nodes on the way have balance 0. */
  predicate AllEven(t: Tree, path: seq<bool>) {
    path == [] || (t.Node? && t.balance == 0 && AllEven(Child(t, path[0]), path[1..]))
  }

  /** The balance factors of the first k nodes on the way, moved towards it. */
  function Bump(t: Tree, path: seq<bool>, k: nat): Tree
    requires Leads(t, path) && k <= |path|
  {
    if k == 0 then t
    else WithChild(t.(balance := t.balance + Sign(path[0])), path[0], Bump(Child(t, path[0]), path[1..], k - 1))
  }

  lemma {:induction false} BumpItems(t: Tree, path: seq<bool>, k: nat)
    requires Leads(t, path) && k <= |path|
    ensures InOrder(Bump(t, path, k)) == InOrder(t)
    ensures Leads(Bump(t, path, k), path[..k])
  {
    if k > 0 {
      BumpItems(Child(t, path[0]), path[1..], k - 1);
      assert path[..k][1..] == path[1..][..k - 1];
    }
  }

  /** One more node on the way gets its balance factor moved. */
  lemma {:induction false} BumpMore(t: Tree, path: seq<bool>, k: nat)
    requires Leads(t, path) && k < |path|
    ensures Leads(Bump(t, path, k), path[..k]) && Leads(t, path[..k])
    ensures At(Bump(t, path, k), path[..k]) == At(t, path[..k]) && At(t, path[..k]).Node?
    ensures var u := At(t, path[..k]);
            Bump(t, path, k + 1) == Put(Bump(t, path, k), path[..k], u.(balance := u.balance + Sign(path[k])))
  {
    if k > 0 {
      assert path[..k][1..] == path[1..][..k - 1];
      BumpMore(Child(t, path[0]), path[1..], k - 1);
    }
  }

  /** A leaf put at the end of a way of even nodes makes the tree one level higher, and the
      moved balance factors are exact. */
  lemma {:induction false} Grows(t: Tree, path: seq<bool>, n: Tree)
    requires Avl(t) && Leads(t, path) && At(t, path) == Leaf && AllEven(t, path)
    requires n.Node? && n.left == Leaf && n.right == Leaf && n.balance == 0
    ensures Leads(Put(t, path, n), path)
    ensures var u := Bump(Put(t, path, n), path, |path|); Avl(u) && Height(u) == Height(t) + 1
    ensures path != [] ==> Bump(Put(t, path, n), path, |path|).balance != 0
  {
    PutItems(t, path, n);
    if path != [] {
      Grows(Child(t, path[0]), path[1..], n);
    }
  }

  /** What one rotation at most makes of the subtree of the deepest uneven node. */
  function Fix(y: Tree): Tree
    requires y.Node?
    requires y.balance < -1 || y.balance > 1 ==> TwoHigher(y, y.balance > 0)
  {
    if y.balance < -1 || y.balance > 1 then
      HeavyShape(y, y.balance > 0);
      Rotate(y, y.balance > 0)
    else y
  }

  /** The subtree after the insertion and before the rotation. */
  function Bumped(y: Tree, path: seq<bool>, n: Tree): Tree
    requires Leads(y, path)
  {
    PutItems(y, path, n);
    Bump(Put(y, path, n), path, |path|)
  }

  /** One rotation at the deepest uneven ancestor is enough: the subtree gets its old height
      back. */
  lemma InsertRepairs(y: Tree, path: seq<bool>, n: Tree)
    requires Avl(y) && Leads(y, path) && path != [] && At(y, path) == Leaf && AllEven(Child(y, path[0]), path[1..])
    requires n.Node? && n.left == Leaf && n.right == Leaf && n.balance == 0
    ensures var u := Bumped(y, path, n);
            && u.Node? && u.balance == y.balance + Sign(path[0])
            && (u.balance < -1 || u.balance > 1 ==>
                   TwoHigher(u, u.balance > 0) && u.balance == 2 * Sign(path[0]) && Child(u, path[0]).balance != 0)
            && Avl(Fix(u)) && InOrder(Fix(u)) == InOrder(u)
            && Height(Fix(u)) == Height(y) + if y.balance == 0 then 1 else 0
  {
    hide InOrder;
    PutItems(y, path, n);
    Grows(Child(y, path[0]), path[1..], n);
    var u := Bumped(y, path, n);
    assert path[1..] == [] ==> Child(y, path[0]) == Leaf;
    if u.balance < -1 || u.balance > 1 {
      RotateRepairs(u, u.balance > 0);
    }
  }

  /** Where the search for an absent key ends, the key fits between what is before and after. */
  ghost predicate Between(t: Tree, path: seq<bool>, key: int)
    requires Leads(t, path)
  {
    (forall i :: 0 <= i < |Pre(t, path)| ==> Pre(t, path)[i].key < key)
      && (forall i :: 0 <= i < |Post(t, path)| ==> key < Post(t, path)[i].key)
  }

  lemma SearchDown(t: Tree, path: seq<bool>, key: int)
    requires Increasing(InOrder(t)) && Leads(t, path) && At(t, path).Node? && Between(t, path, key)
    requires At(t, path).item.key != key
    ensures var d := key > At(t, path).item.key; Leads(t, path + [d]) && Between(t, path + [d], key)
  {
    hide InOrder, Pre, Post, At, Leads, Increasing, Child;
    var u := At(t, path);
    var d := key > u.item.key;
    OneDown(t, path, d);
    Split(t, path);
    NodeItems(u);
    var a, b := Pre(t, path) + InOrder(u.left), InOrder(u.right) + Post(t, path);
    assert InOrder(t) == a + [u.item] + b;
    Around(a, u.item, b);
    if d {
      AllBelow(a, u.item, key);
      assert Pre(t, path + [d]) == a + [u.item];
    } else {
      AllAbove(u.item, b, key);
      assert Post(t, path + [d]) == [u.item] + b;
    }
  }

  lemma AllBelow(a: seq<Item>, x: Item, key: int)
    requires (forall i :: 0 <= i < |a| ==> a[i].key < x.key) && x.key < key
    ensures forall i :: 0 <= i < |a + [x]| ==> (a + [x])[i].key < key
  {
  }

  lemma AllAbove(x: Item, b: seq<Item>, key: int)
    requires (forall i :: 0 <= i < |b| ==> x.key < b[i].key) && key < x.key
    ensures forall i :: 0 <= i < |[x] + b| ==> key < ([x] + b)[i].key
  {
    forall i | 0 <= i < |[x] + b| ensures key < ([x] + b)[i].key {
      assert i > 0 ==> ([x] + b)[i] == b[i - 1];
    }
  }

  lemma NodeItems(t: Tree)
    requires t.Node?
    ensures InOrder(t) == InOrder(t.left) + [t.item] + InOrder(t.right)
  {
  }

  lemma Around(a: seq<Item>, x: Item, b: seq<Item>)
    requires Increasing(a + [x] + b)
    ensures forall i :: 0 <= i < |a| ==> a[i].key < x.key
    ensures forall i :: 0 <= i < |b| ==> x.key < b[i].key
  {
    var s := a + [x] + b;
    assert s[|a|] == x;
    forall i | 0 <= i < |a| ensures a[i].key < x.key {
      assert s[i] == a[i];
    }
    forall i | 0 <= i < |b| ensures x.key < b[i].key {
      assert s[|a| + 1 + i] == b[i];
    }
  }

  /** The new item keeps the order. */
  lemma InsertIncreasing(t: Tree, path: seq<bool>, x: Item)
    requires Increasing(InOrder(t)) && Leads(t, path) && At(t, path) == Leaf && Between(t, path, x.key)
    ensures Increasing(Pre(t, path) + [x] + Post(t, path)) && InOrder(t) == Pre(t, path) + Post(t, path)
    ensures x.key !in Keys(InOrder(t))
  {
    Split(t, path);
    assert InOrder(At(t, path)) == [];
    hide InOrder, Pre, Post, At, Leads, Increasing, Keys;
    assert InOrder(t) == Pre(t, path) + Post(t, path);
    SetApart(Pre(t, path), x, Post(t, path));
  }

  lemma SetApart(a: seq<Item>, x: Item, b: seq<Item>)
    requires Increasing(a + b)
    requires (forall i :: 0 <= i < |a| ==> a[i].key < x.key) && (forall i :: 0 <= i < |b| ==> x.key < b[i].key)
    ensures Increasing(a + [x] + b) && x.key !in Keys(a + b)
  {
    var s, s' := a + b, a + [x] + b;
    forall i, j | 0 <= i < j < |s'| ensures s'[i].key < s'[j].key {
      assert i < |a| ==> s'[i] == a[i] && a[i] == s[i];
      assert j > |a| ==> s'[j] == b[j - |a| - 1] && s'[j] == s[j - 1];
      assert j < |a| ==> s'[j] == s[j];
      assert i > |a| ==> s'[i] == s[i - 1];
    }
  }

  function Keys(s: seq<Item>): set<int> {
    set i | 0 <= i < |s| :: s[i].key
  }

  // ---------- deletion ----------

  /** Balanced, with exact factors, if the subtree at the end of the way were one level higher
      than it is. */
  ghost predicate Pending(t: Tree, path: seq<bool>) {
    if path == [] then Avl(t)
    else
      && t.Node? && Avl(Child(t, !path[0])) && Pending(Child(t, path[0]), path[1..])
      && -1 <= t.balance <= 1
      && t.balance == Sign(path[0]) * (PendingHeight(Child(t, path[0]), path[1..]) - Height(Child(t, !path[0])))
  }

  function PendingHeight(t: Tree, path: seq<bool>): nat {
    if path == [] || t.Leaf? then Height(t) + 1
    else if PendingHeight(Child(t, path[0]), path[1..]) < Height(Child(t, !path[0])) then 1 + Height(Child(t, !path[0]))
    else 1 + PendingHeight(Child(t, path[0]), path[1..])
  }

  lemma {:induction false} PendingLeads(t: Tree, path: seq<bool>)
    requires Pending(t, path)
    ensures Leads(t, path)
  {
    if path != [] {
      PendingLeads(Child(t, path[0]), path[1..]);
    }
  }

  /** A subtree that waits for one of its own subtrees makes the whole tree wait for it. */
  lemma {:induction false} PendingPut(t: Tree, path: seq<bool>, s: Tree, more: seq<bool>)
    requires Avl(t) && Leads(t, path) && Pending(s, more) && PendingHeight(s, more) == Height(At(t, path))
    ensures Pending(Put(t, path, s), path + more) && PendingHeight(Put(t, path, s), path + more) == Height(t)
  {
    if path == [] {
      assert path + more == more;
    } else {
      assert (path + more)[0] == path[0] && (path + more)[1..] == path[1..] + more;
      PendingPut(Child(t, path[0]), path[1..], s, more);
      var c := Put(Child(t, path[0]), path[1..], s);
      assert WithChild(t, path[0], c) == Put(t, path, s);
      hide At, Put, Leads, InOrder;
      PendingChild(t, path[0], c, path + more);
    }
  }

  lemma PendingChild(t: Tree, d: bool, c: Tree, path: seq<bool>)
    requires t.Node? && Avl(t) && path != [] && path[0] == d
    requires Pending(c, path[1..]) && PendingHeight(c, path[1..]) == Height(Child(t, d))
    ensures Pending(WithChild(t, d, c), path) && PendingHeight(WithChild(t, d, c), path) == Height(t)
  {
    assert Avl(t.left) && Avl(t.right) && -1 <= t.balance <= 1;
    hide Avl, InOrder;
  }

  /** What a waiting tree says about the parent of the subtree it waits for. */
  lemma {:induction false} PendingAt(t: Tree, path: seq<bool>, d: bool)
    requires Pending(t, path + [d])
    ensures Leads(t, path) && Pending(At(t, path), [d])
  {
    if path == [] {
      assert path + [d] == [d];
    } else {
      assert (path + [d])[0] == path[0] && (path + [d])[1..] == path[1..] + [d];
      PendingAt(Child(t, path[0]), path[1..], d);
    }
  }

  /** The parent repaired: either the tree is balanced again, or it waits one level up. */
  lemma {:induction false} PendingUp(t: Tree, path: seq<bool>, d: bool, s: Tree)
    requires Pending(t, path + [d]) && Leads(t, path) && Avl(s)
    ensures Height(s) == PendingHeight(At(t, path), [d]) ==>
              Avl(Put(t, path, s)) && Height(Put(t, path, s)) == PendingHeight(t, path + [d])
    ensures Height(s) + 1 == PendingHeight(At(t, path), [d]) ==>
              Pending(Put(t, path, s), path) && PendingHeight(Put(t, path, s), path) == PendingHeight(t, path + [d])
  {
    if path == [] {
      assert path + [d] == [d];
    } else {
      assert (path + [d])[0] == path[0] && (path + [d])[1..] == path[1..] + [d];
      PendingUp(Child(t, path[0]), path[1..], d, s);
      var c := Put(Child(t, path[0]), path[1..], s);
      assert WithChild(t, path[0], c) == Put(t, path, s);
      assert At(t, path) == At(Child(t, path[0]), path[1..]);
      hide At, Put, Leads, InOrder;
      PendingDone(t, path + [d], c, path);
    }
  }

  /** One level of a waiting tree, when its child has got its height back, or still waits. */
  lemma PendingDone(t: Tree, path: seq<bool>, c: Tree, path': seq<bool>)
    requires Pending(t, path) && path != [] && path' != [] && path'[0] == path[0]
    ensures Avl(c) && Height(c) == PendingHeight(Child(t, path[0]), path[1..]) ==>
              Avl(WithChild(t, path[0], c)) && Height(WithChild(t, path[0], c)) == PendingHeight(t, path)
    ensures (Pending(c, path'[1..]) && PendingHeight(c, path'[1..]) == PendingHeight(Child(t, path[0]), path[1..])) ==>
              Pending(WithChild(t, path[0], c), path')
                && PendingHeight(WithChild(t, path[0], c), path') == PendingHeight(t, path)
  {
    if Avl(c) && Height(c) == PendingHeight(Child(t, path[0]), path[1..]) {
      ChildDone(t, path, c);
    }
    if Pending(c, path'[1..]) && PendingHeight(c, path'[1..]) == PendingHeight(Child(t, path[0]), path[1..]) {
      ChildWaits(t, path, c, path');
    }
  }

  lemma ChildDone(t: Tree, path: seq<bool>, c: Tree)
    requires Pending(t, path) && path != [] && Avl(c) && Height(c) == PendingHeight(Child(t, path[0]), path[1..])
    ensures Avl(WithChild(t, path[0], c)) && Height(WithChild(t, path[0], c)) == PendingHeight(t, path)
  {
  }

  lemma ChildWaits(t: Tree, path: seq<bool>, c: Tree, path': seq<bool>)
    requires Pending(t, path) && path != [] && path' != [] && path'[0] == path[0]
    requires Pending(c, path'[1..]) && PendingHeight(c, path'[1..]) == PendingHeight(Child(t, path[0]), path[1..])
    ensures Pending(WithChild(t, path[0], c), path')
    ensures PendingHeight(WithChild(t, path[0], c), path') == PendingHeight(t, path)
  {
    hide Avl, Height, InOrder;
  }

  function Lighter(y: Tree, d: bool): Tree
    requires y.Node?
  {
    y.(balance := y.balance - Sign(d))
  }

  /** One step of the way up after a deletion: the loop stops exactly when the subtree has
      the height it had before. */
  lemma DeleteRepairs(y: Tree, d: bool)
    requires Pending(y, [d])
    ensures var u := Lighter(y, d);
            && (u.balance < -1 || u.balance > 1 ==> u.balance == -2 * Sign(d) && TwoHigher(u, !d) && Child(u, !d).Node?)
            && Avl(Fix(u)) && InOrder(Fix(u)) == InOrder(y)
            && var stop := u.balance == -Sign(d) || (u.balance == -2 * Sign(d) && Child(u, !d).balance == 0);
               Height(Fix(u)) + (if stop then 0 else 1) == PendingHeight(y, [d])
  {
    assert [d][1..] == [];
    var u := Lighter(y, d);
    LighterShape(y, d);
    if u.balance < -1 || u.balance > 1 {
      HeavyShape(u, !d);
      RotateRepairs(u, !d);
      hide Rotate, Avl, InOrder;
    }
  }

  lemma LighterShape(y: Tree, d: bool)
    requires Pending(y, [d])
    ensures var u := Lighter(y, d);
            && Avl(u.left) && Avl(u.right) && InOrder(u) == InOrder(y) && u.balance == Height(u.right) - Height(u.left)
            && (u.balance < -1 || u.balance > 1 ==> u.balance == -2 * Sign(d) && TwoHigher(u, !d))
            && Height(u) == PendingHeight(y, [d]) - if u.balance * Sign(d) < 0 then 0 else 1
  {
    var c, o := Child(y, d), Child(y, !d);
    assert [d][1..] == [];
    assert Pending(c, []) && PendingHeight(c, []) == Height(c) + 1;
    assert y.balance == Sign(d) * (Height(c) + 1 - Height(o));
    var u := Lighter(y, d);
    assert InOrder(u) == InOrder(y);
    hide InOrder, Pending;
    if d {
    } else {
    }
  }

  /** The three ways of taking the root out of a subtree. */
  lemma RemoveNoRight(p: Tree)
    requires p.Node? && p.right == Leaf && Avl(p)
    ensures Pending(p.left, []) && PendingHeight(p.left, []) == Height(p)
    ensures InOrder(p) == InOrder(p.left) + [p.item]
  {
  }

  /** The leftmost node of a subtree, m steps down, without its own left child. */
  function Zeros(m: nat): seq<bool> {
    seq(m, _ => false)
  }

  /** p's place is taken by the leftmost node of its right subtree. */
  function Successor(p: Tree, m: nat): Tree
    requires p.Node? && Leads(p.right, Zeros(m)) && At(p.right, Zeros(m)).Node?
  {
    var s := At(p.right, Zeros(m));
    Node(s.ref, p.left, s.item, p.balance, Put(p.right, Zeros(m), s.right))
  }

  lemma RemoveWithRight(p: Tree, m: nat)
    requires p.Node? && Avl(p) && Leads(p.right, Zeros(m)) && At(p.right, Zeros(m)).Node?
    requires At(p.right, Zeros(m)).left == Leaf
    ensures Pending(Successor(p, m), [true] + Zeros(m))
    ensures PendingHeight(Successor(p, m), [true] + Zeros(m)) == Height(p)
    ensures InOrder(Successor(p, m)) == InOrder(p.left) + InOrder(p.right)
  {
    var z := Zeros(m);
    var s := At(p.right, z);
    var q := Put(p.right, z, s.right);
    AvlAt(p.right, z);
    assert Pending(q, z) && PendingHeight(q, z) == Height(p.right) by {
      PendingPut(p.right, z, s.right, []);
      assert z + [] == z;
    }
    LeastFirst(p.right, m);
    SuccessorPending(p, s.ref, s.item, q, z);
    assert InOrder(Successor(p, m)) == InOrder(p.left) + ([s.item] + InOrder(q));
  }

  lemma SuccessorPending(p: Tree, ref: nat, item: Item, q: Tree, z: seq<bool>)
    requires p.Node? && Avl(p) && Pending(q, z) && PendingHeight(q, z) == Height(p.right)
    ensures var s := Node(ref, p.left, item, p.balance, q);
              Pending(s, [true] + z) && PendingHeight(s, [true] + z) == Height(p)
  {
    assert ([true] + z)[1..] == z;
  }

  lemma LeastFirst(t: Tree, m: nat)
    requires Leads(t, Zeros(m)) && At(t, Zeros(m)).Node? && At(t, Zeros(m)).left == Leaf
    ensures var s := At(t, Zeros(m)); [s.item] + InOrder(Put(t, Zeros(m), s.right)) == InOrder(t)
  {
    var z := Zeros(m);
    var s := At(t, z);
    assert InOrder(s) == [s.item] + InOrder(s.right);
    Split(t, z);
    PutItems(t, z, s.right);
    PreZeros(t, m);
  }

  lemma {:induction false} PreZeros(t: Tree, m: nat)
    requires Leads(t, Zeros(m))
    ensures Pre(t, Zeros(m)) == []
  {
    if m > 0 {
      assert Zeros(m)[1..] == Zeros(m - 1);
      PreZeros(t.left, m - 1);
    }
  }

  /** Without one item the order stays. */
  lemma RemoveIncreasing(a: seq<Item>, x: Item, b: seq<Item>)
    requires Increasing(a + [x] + b)
    ensures Increasing(a + b) && x.key !in Keys(a + b)
  {
    var s, s' := a + [x] + b, a + b;
    assert forall i :: 0 <= i < |s'| ==> s'[i] == s[if i < |a| then i else i + 1];
    assert s[|a|] == x;
    forall i, j | 0 <= i < j < |s'| ensures s'[i].key < s'[j].key {
      assert s'[i] == s[if i < |a| then i else i + 1] && s'[j] == s[if j < |a| then j else j + 1];
    }
  }
}
