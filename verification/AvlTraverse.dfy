/** Traversers of the balanced tree (utils/avl.c). */
module AvlTraverse {
  import opened AvlTree
  import opened AvlHeap
  import opened AvlSteps
  import opened AvlTable

  datatype Option = None | Some(item: Item)

  /** The nodes above the end of the path. */
  function Above(t: Tree, path: seq<bool>): seq<nat>
    requires Leads(t, path)
  {
    if path == [] then [] else [RefOf(t)] + Above(Child(t, path[0]), path[1..])
  }

  lemma {:induction false} AboveMore(t: Tree, path: seq<bool>, d: bool)
    requires Leads(t, path) && At(t, path).Node?
    ensures Leads(t, path + [d]) && Above(t, path + [d]) == Above(t, path) + [At(t, path).ref]
    ensures |Above(t, path)| == |path|
  {
    var p := path + [d];
    OneDown(t, path, d);
    if path == [] {
      assert p[1..] == [];
    } else {
      assert p[0] == path[0] && p[1..] == path[1..] + [d];
      AboveMore(Child(t, path[0]), path[1..], d);
    }
  }

  ghost predicate OnPath(t: Tree, node: nat, stack: seq<nat>, path: seq<bool>) {
    Leads(t, path) && At(t, path).Node? && At(t, path).ref == node && stack == Above(t, path)
  }

  /** The stack holds the nodes above the selected one. */
  ghost predicate StackOk(t: Tree, node: nat, stack: seq<nat>) {
    exists path :: OnPath(t, node, stack, path)
  }

  lemma {:induction false} AboveExtends(t: Tree, u: Tree, path: seq<bool>)
    requires Extends(t, u) && Leads(t, path)
    ensures Leads(u, path) && Above(u, path) == Above(t, path)
  {
    if path != [] {
      AboveExtends(Child(t, path[0]), Child(u, path[0]), path[1..]);
    }
  }

  /** An insertion that leaves the generation alone, because it needs no rotation, leaves the
      stacks of all traversers right. */
  lemma InsertionKeepsStack(t: Tree, u: Tree, node: nat, stack: seq<nat>)
    requires Extends(t, u) && StackOk(t, node, stack)
    ensures StackOk(u, node, stack)
  {
    var path :| OnPath(t, node, stack, path);
    AboveExtends(t, u, path);
    ExtendsPath(t, u, path);
    assert OnPath(u, node, stack, path);
  }

  /** Position of the node at the end of the path among the items. */
  function Index(t: Tree, path: seq<bool>): nat
    requires Leads(t, path) && At(t, path).Node?
  {
    |Pre(t, path)| + |InOrder(At(t, path).left)|
  }

  lemma IndexItem(t: Tree, path: seq<bool>)
    requires Leads(t, path) && At(t, path).Node?
    ensures Index(t, path) < |InOrder(t)| && InOrder(t)[Index(t, path)] == At(t, path).item
    ensures |InOrder(t)| == Index(t, path) + 1 + |InOrder(At(t, path).right)| + |Post(t, path)|
  {
    Split(t, path);
    NodeItems(At(t, path));
    hide InOrder, Pre, Post, At, Leads;
  }

  /** The comparison that trav_refresh makes leads towards the node. */
  lemma Towards(t: Tree, path: seq<bool>, k: nat)
    requires Increasing(InOrder(t)) && Leads(t, path) && At(t, path).Node? && k < |path|
    ensures Leads(t, path[..k]) && At(t, path[..k]).Node?
    ensures path[k] == (At(t, path).item.key > At(t, path[..k]).item.key)
  {
    PrefixLeads(t, path, k);
    var u, rest := At(t, path[..k]), path[k..];
    assert path == path[..k] + rest;
    Longer(t, path[..k], rest);
    var c := Child(u, rest[0]);
    assert At(t, path) == At(c, rest[1..]);
    HasKey(c, rest[1..]);
    KeySide(t, path[..k], rest[0], At(t, path).item);
  }

  lemma KeySide(t: Tree, path: seq<bool>, d: bool, x: Item)
    requires Increasing(InOrder(t)) && Leads(t, path) && At(t, path).Node? && x in InOrder(Child(At(t, path), d))
    ensures d == (x.key > At(t, path).item.key)
  {
    var u := At(t, path);
    Split(t, path);
    NodeItems(u);
    hide InOrder, Pre, Post, At, Leads, Increasing;
    var a, b := Pre(t, path) + InOrder(u.left), InOrder(u.right) + Post(t, path);
    assert InOrder(t) == a + [u.item] + b;
    Around(a, u.item, b);
    if d {
      assert x in b;
    } else {
      assert x in a;
    }
  }

  /** r is what comes after x in s. */
  ghost predicate Follows(s: seq<Item>, x: Item, r: Option) {
    exists i :: 0 <= i < |s| && s[i] == x && r == if i + 1 < |s| then Some(s[i + 1]) else None
  }

  lemma FollowsAt(s: seq<Item>, i: nat, r: Option)
    requires i < |s| && r == if i + 1 < |s| then Some(s[i + 1]) else None
    ensures Follows(s, s[i], r)
  {
  }

  class Traverser {
    const table: Table
    var node: nat
    var stack: seq<nat>
    var generation: nat

    /** The selected node belongs to the table, and the stack is right unless the table has
        been rebuilt since. */
    ghost predicate Valid()
      reads this, table
    {
      && table.Valid() && table.count < SIZE_LIMIT && generation <= table.generation
      && (node != NULL ==> node in Refs(table.tree))
      && (node != NULL && generation == table.generation ==> StackOk(table.tree, node, stack))
    }

    /** avl_t_init. */
    constructor (table: Table)
      requires table.Valid() && table.count < SIZE_LIMIT
      ensures Valid() && this.table == table && node == NULL
    {
      this.table, node, stack, generation := table, NULL, [], table.generation;
    }

    /** The leftmost node below node, which is pushed with all nodes passed. */
    method GoLeft(ghost path0: seq<bool>) returns (ghost path: seq<bool>)
      requires table.Valid() && table.count < SIZE_LIMIT && OnPath(table.tree, node, stack, path0)
      modifies this`node, this`stack
      ensures OnPath(table.tree, node, stack, path) && Pre(table.tree, path) == Pre(table.tree, path0)
      ensures At(table.tree, path).left == Leaf
    {
      hide Rep, Avl, Increasing, InOrder, Leads, At, Above, Pre;
      path := path0;
      CellAt(table.h, table.tree, path);
      LeftTest(table.h, table.tree, path);
      while table.h[node].left != NULL
        invariant OnPath(table.tree, node, stack, path) && Pre(table.tree, path) == Pre(table.tree, path0)
        invariant node in table.h && table.h[node] == CellOf(At(table.tree, path))
        invariant (table.h[node].left == NULL <==> At(table.tree, path).left == Leaf)
        decreases At(table.tree, path)
      {
        Room(table.tree, path);
        AboveMore(table.tree, path, false);
        OneDown(table.tree, path, false);
        assert |stack| < AVL_MAX_HEIGHT;
        stack := stack + [node];
        node := table.h[node].left;
        path := path + [false];
        CellAt(table.h, table.tree, path);
        LeftTest(table.h, table.tree, path);
      }
    }

    /** avl_t_first. */
    method First() returns (r: Option)
      requires table.Valid() && table.count < SIZE_LIMIT
      modifies this
      ensures Valid()
      ensures r == if table.Items() == [] then None else Some(table.Items()[0])
      ensures r.Some? ==> node != NULL && node in table.h && table.h[node].item == r.item
      ensures r.None? ==> node == NULL
    {
      hide Rep, Avl, Increasing, Leads, At, Above, Pre;
      stack, generation := [], table.generation;
      RootPath(table.h, table.tree);
      node := table.h[HEAD].left;
      if node == NULL {
        return None;
      }
      ghost var path := GoLeft([]);
      CellAt(table.h, table.tree, path);
      IndexItem(table.tree, path);
      WholeDistinct(table.h, table.tree);
      RefThere(table.tree, path);
      r := Some(table.h[node].item);
    }

    /** trav_refresh. */
    method Refresh()
      requires Valid()
      modifies this`stack, this`generation
      ensures Valid() && generation == table.generation
    {
      generation := table.generation;
      if node != NULL {
        hide Rep, Avl, Increasing, InOrder, Leads, At, Above, Refs;
        var t := table;
        ghost var path := FindRef(t.tree, node);
        CellAt(t.h, t.tree, path);
        stack := [];
        var i := t.h[HEAD].left;
        ghost var k := 0;
        RootPath(t.h, t.tree);
        assert path[..0] == [] && path[..|path|] == path;
        while i != node
          modifies this`stack
          invariant 0 <= k <= |path| && Leads(t.tree, path[..k]) && stack == Above(t.tree, path[..k])
          invariant i == RefOf(At(t.tree, path[..k]))
          decreases |path| - k
        {
          Nearer(t.h, t.tree, path, k);
          assert |stack| < AVL_MAX_HEIGHT && i != NULL;
          stack := stack + [i];
          i := Link(t.h[i], t.h[node].item.key > t.h[i].item.key);
          k := k + 1;
        }
        if k < |path| {
          WholeDistinct(t.h, t.tree);
          NotYet(t.tree, path, k);
        }
        assert OnPath(t.tree, node, stack, path);
      }
    }

    /** avl_t_next: the item that follows the selected one, the first one if none is selected. */
    method Next() returns (r: Option)
      requires Valid()
      modifies this
      ensures Valid()
      ensures old(node) == NULL ==> r == if table.Items() == [] then None else Some(table.Items()[0])
      ensures old(node) != NULL ==> old(node) in table.h && Follows(table.Items(), table.h[old(node)].item, r)
      ensures r.Some? ==> node != NULL && node in table.h && table.h[node].item == r.item
      ensures r.None? ==> node == NULL
    {
      hide Rep, Avl, Increasing, Leads, At, Above, Pre, InOrder, StackOk, OnPath, Refs;
      if generation != table.generation {
        Refresh();
      }
      if node == NULL {
        r := First();
        return;
      }
      ghost var path := PathOf(table.tree, node, stack);
      CellOnPath(table.h, table.tree, node, stack, path);
      IndexItem(table.tree, path);
      if table.h[node].right != NULL {
        PushRight(table.tree, node, stack, path);
        assert |stack| < AVL_MAX_HEIGHT;
        stack := stack + [node];
        node := table.h[node].right;
        ghost var path' := GoLeft(path + [true]);
        Selected(table.h, table.tree, node, stack, path');
        NextBelow(table.tree, path, path');
        IndexItem(table.tree, path');
        r := Some(table.h[node].item);
      } else {
        r := Climb(path);
      }
      FollowsAt(table.Items(), Index(table.tree, path), r);
    }

    /** Up to the first node reached from the left. */
    method Climb(ghost path0: seq<bool>) returns (r: Option)
      requires Valid() && node != NULL && generation == table.generation && OnPath(table.tree, node, stack, path0)
      requires Leads(table.tree, path0) && At(table.tree, path0).Node? && At(table.tree, path0).right == Leaf
      modifies this
      ensures Valid()
      ensures r == if Index(table.tree, path0) + 1 < |table.Items()|
                   then Some(table.Items()[Index(table.tree, path0) + 1]) else None
      ensures r.Some? ==> node != NULL && node in table.h && table.h[node].item == r.item
      ensures r.None? ==> node == NULL
    {
      hide Rep, Avl, Increasing, Leads, At, Above, Pre, InOrder, StackOk, OnPath, Refs;
      var x, y := node, NULL;
      ghost var path := path0;
      ClimbStart(table.tree, path);
      var again := true;
      while again
        invariant again ==> OnPath(table.tree, x, stack, path) && LastBelow(table.tree, path, Index(table.tree, path0))
        invariant !again ==>
                    OnPath(table.tree, x, stack, path) && Leads(table.tree, path) && At(table.tree, path).Node?
                      && Index(table.tree, path) == Index(table.tree, path0) + 1
        invariant node == old(node) && generation == table.generation
        decreases again, |stack|
      {
        ClimbTop(table.tree, x, stack, path, Index(table.tree, path0));
        if |stack| == 0 {
          node := NULL;
          return None;
        }
        y := x;
        ClimbUp(table.h, table.tree, x, stack, path, Index(table.tree, path0));
        x := stack[|stack| - 1];
        stack := stack[..|stack| - 1];
        path := path[..|path| - 1];
        again := y == table.h[x].right;
      }
      node := x;
      IndexItem(table.tree, path);
      Selected(table.h, table.tree, node, stack, path);
      r := Some(table.h[x].item);
    }
  }

  /** One step of trav_refresh. */
  lemma Nearer(h: Heap, t: Tree, path: seq<bool>, k: nat)
    requires Rep(h, t) && Avl(t) && Increasing(InOrder(t)) && |InOrder(t)| < SIZE_LIMIT
    requires Leads(t, path) && At(t, path).Node? && k < |path|
    ensures Leads(t, path[..k]) && At(t, path[..k]).Node? && |Above(t, path[..k])| < AVL_MAX_HEIGHT
    ensures var u := At(t, path[..k]);
            && u.ref in h && u.ref != NULL && h[u.ref] == CellOf(u) && Leads(t, path[..k + 1])
            && Above(t, path[..k + 1]) == Above(t, path[..k]) + [u.ref]
            && RefOf(At(t, path[..k + 1])) == Link(h[u.ref], At(t, path).item.key > u.item.key)
  {
    hide *;
    Towards(t, path, k);
    CellAt(h, t, path[..k]);
    Room(t, path[..k]);
    AboveMore(t, path[..k], path[k]);
    OneDown(t, path[..k], path[k]);
    assert path[..k + 1] == path[..k] + [path[k]];
    ChildLink(At(t, path[..k]), path[k]);
    RefNotNull(h, t, path[..k]);
  }

  lemma ChildLink(u: Tree, d: bool)
    requires u.Node?
    ensures Link(CellOf(u), d) == RefOf(Child(u, d))
  {
  }

  lemma RefNotNull(h: Heap, t: Tree, path: seq<bool>)
    requires Rep(h, t) && Leads(t, path) && At(t, path).Node?
    ensures RefOf(At(t, path)) == At(t, path).ref != NULL
  {
    Sub(h, t, path);
  }

  lemma LeftTest(h: Heap, t: Tree, path: seq<bool>)
    requires Rep(h, t) && Leads(t, path) && At(t, path).Node?
    ensures var u := At(t, path);
            && (RefOf(u.left) == NULL <==> u.left == Leaf) && (RefOf(u.right) == NULL <==> u.right == Leaf)
  {
    Sub(h, t, path);
  }

  lemma RootPath(h: Heap, t: Tree)
    requires Rep(h, t)
    ensures HEAD in h && h[HEAD].left == RefOf(t) && (RefOf(t) == NULL <==> t == Leaf)
    ensures Leads(t, []) && At(t, []) == t && Above(t, []) == [] && Pre(t, []) == []
  {
  }

  lemma RefThere(t: Tree, path: seq<bool>)
    requires Leads(t, path) && At(t, path).Node? && Distinct(t)
    ensures At(t, path).ref in Refs(t)
  {
    Sub(map[], t, path);
    RefInside(At(t, path));
  }

  lemma WholeDistinct(h: Heap, t: Tree)
    requires Rep(h, t)
    ensures Distinct(t)
  {
  }

  lemma PathOf(t: Tree, node: nat, stack: seq<nat>) returns (path: seq<bool>)
    requires StackOk(t, node, stack)
    ensures OnPath(t, node, stack, path)
  {
    path :| OnPath(t, node, stack, path);
  }

  lemma CellOnPath(h: Heap, t: Tree, node: nat, stack: seq<nat>, path: seq<bool>)
    requires Rep(h, t) && OnPath(t, node, stack, path)
    ensures Leads(t, path) && At(t, path).Node? && node in h && h[node] == CellOf(At(t, path))
    ensures (h[node].right == NULL <==> At(t, path).right == Leaf)
  {
    CellAt(h, t, path);
    LeftTest(h, t, path);
  }

  lemma PushRight(t: Tree, node: nat, stack: seq<nat>, path: seq<bool>)
    requires OnPath(t, node, stack, path) && At(t, path).right.Node? && Avl(t) && |InOrder(t)| < SIZE_LIMIT
    ensures |stack| < AVL_MAX_HEIGHT && OnPath(t, At(t, path).right.ref, stack + [node], path + [true])
    ensures Leads(t, path) && Leads(t, path + [true])
  {
    Room(t, path);
    AboveMore(t, path, true);
    OneDown(t, path, true);
  }

  lemma NextBelow(t: Tree, path: seq<bool>, path': seq<bool>)
    requires Leads(t, path) && At(t, path).Node? && Leads(t, path') && At(t, path').Node? && At(t, path').left == Leaf
    requires Leads(t, path + [true]) && Pre(t, path') == Pre(t, path + [true])
    ensures Index(t, path') == Index(t, path) + 1
  {
    OneDown(t, path, true);
    assert InOrder(Leaf) == [];
    hide Pre, At, Leads, InOrder;
  }

  lemma Selected(h: Heap, t: Tree, node: nat, stack: seq<nat>, path: seq<bool>)
    requires Rep(h, t) && OnPath(t, node, stack, path)
    ensures StackOk(t, node, stack) && node in Refs(t) && node in h && node != NULL && Leads(t, path)
    ensures At(t, path).Node?
    ensures Index(t, path) < |InOrder(t)| && h[node].item == InOrder(t)[Index(t, path)]
  {
    CellAt(h, t, path);
    RefThere(t, path);
    IndexItem(t, path);
    HeadNotInside(h, t, path);
    Sub(h, t, path);
  }

  /** The item at position i is the last one of the subtree at the end of the path. */
  ghost predicate LastBelow(t: Tree, path: seq<bool>, i: nat) {
    Leads(t, path) && |Pre(t, path)| + |InOrder(At(t, path))| == i + 1
  }

  lemma ClimbStart(t: Tree, path: seq<bool>)
    requires Leads(t, path) && At(t, path).Node? && At(t, path).right == Leaf
    ensures LastBelow(t, path, Index(t, path))
  {
    NodeItems(At(t, path));
    assert InOrder(Leaf) == [];
    hide Pre, At, Leads, InOrder;
  }

  lemma {:induction false} AboveLength(t: Tree, path: seq<bool>)
    requires Leads(t, path)
    ensures |Above(t, path)| == |path|
  {
    if path != [] {
      AboveLength(Child(t, path[0]), path[1..]);
    }
  }

  lemma ClimbTop(t: Tree, x: nat, stack: seq<nat>, path: seq<bool>, i: nat)
    requires OnPath(t, x, stack, path) && LastBelow(t, path, i)
    ensures |stack| == |path| && (stack == [] ==> |InOrder(t)| == i + 1)
  {
    AboveLength(t, path);
  }

  lemma ClimbUp(h: Heap, t: Tree, x: nat, stack: seq<nat>, path: seq<bool>, i: nat)
    requires Rep(h, t) && OnPath(t, x, stack, path) && LastBelow(t, path, i) && stack != [] && |stack| == |path|
    ensures var n := |path| - 1;
            && OnPath(t, stack[n], stack[..n], path[..n]) && Leads(t, path[..n]) && At(t, path[..n]).Node?
            && stack[n] in h
            && if x == h[stack[n]].right then LastBelow(t, path[..n], i) else Index(t, path[..n]) == i + 1
  {
    var n := |path| - 1;
    ParentParts(t, path);
    var up, d := path[..n], path[n];
    assert path == up + [d];
    AboveMore(t, up, d);
    OneDown(t, up, d);
    CellAt(h, t, up);
    Sub(h, t, up);
    NodeItems(At(t, up));
    LocalLink(h, At(t, up), d);
    hide Pre, At, Leads, InOrder, Above, Holds, Distinct, Refs;
  }
}
