/** Colouring an interference graph whose nodes may have been merged
    (backend/ra-colorize.c): what simplification and coalescing keep, and why it is
    enough when the stack is emptied. */
module Coloring {
  import opened Cfg
  import MustFlow

  /** The part of the graph that decides about colours: `arcs` are the neighbours of each
      node, `merged` the coalesced nodes in the order in which they were merged into
      their `alias`, `stack` the select stack with its top first. */
  datatype View = View(arcs: seq<set<nat>>, alias: seq<nat>, merged: seq<nat>, stack: seq<nat>)

  ghost predicate Distinct(s: seq<nat>) {
    forall i, j :: 0 <= i < j < |s| ==> s[i] != s[j]
  }

  ghost predicate Arcs(arcs: seq<set<nat>>) {
    && (forall x, y :: 0 <= x < |arcs| && y in arcs[x] ==> y < |arcs| && y != x)
    && (forall x: nat, y: nat :: x < |arcs| && y < |arcs| && y in arcs[x] ==> x in arcs[y])
  }

  /** Merging leads from a node to one that is merged later, or not at all. */
  ghost predicate Shape(w: View) {
    && Arcs(w.arcs) && |w.alias| == |w.arcs| && Distinct(w.merged) && Distinct(w.stack)
    && (forall i :: 0 <= i < |w.merged| ==>
          w.merged[i] < |w.arcs| && w.alias[w.merged[i]] < |w.arcs| && w.alias[w.merged[i]] !in w.merged[..i + 1])
    && (forall i :: 0 <= i < |w.stack| ==> w.stack[i] < |w.arcs| && w.stack[i] !in w.merged)
  }

  ghost function IndexOf(s: seq<nat>, v: nat): (i: nat)
    requires v in s
    ensures i < |s| && s[i] == v
  {
    var i :| 0 <= i < |s| && s[i] == v;
    i
  }

  lemma AliasLater(w: View, v: nat)
    requires Shape(w) && v in w.merged
    ensures v < |w.alias| && w.alias[v] < |w.arcs|
    ensures (w.alias[v] in w.merged ==> IndexOf(w.merged, v) < IndexOf(w.merged, w.alias[v]))
  {
    var i := IndexOf(w.merged, v);
    forall k | 0 <= k <= i ensures w.merged[k] != w.alias[v] {
      assert w.merged[..i + 1][k] == w.merged[k];
    }
  }

  /** The node a node stands for: what `alias` returns. */
  ghost function Rep(w: View, v: nat): (r: nat)
    requires Shape(w) && v < |w.arcs|
    ensures r < |w.arcs| && r !in w.merged && (v !in w.merged ==> r == v)
    decreases if v in w.merged then |w.merged| - IndexOf(w.merged, v) else 0
  {
    if v in w.merged then
      AliasLater(w, v);
      Rep(w, w.alias[v])
    else v
  }

  /** x is on the stack and y is not at or below its place. */
  ghost predicate Deeper(stack: seq<nat>, x: nat, y: nat) {
    exists i :: 0 <= i < |stack| && stack[i] == x && y !in stack[i..]
  }

  /** A neighbour of x stands for y. */
  ghost predicate Sees(w: View, x: nat, y: nat)
    requires Shape(w) && x < |w.arcs|
  {
    exists z: nat :: z < |w.arcs| && z in w.arcs[x] && Rep(w, z) == y
  }

  ghost predicate Safe(w: View, x: nat, y: nat)
    requires Shape(w) && x < |w.arcs| && y < |w.arcs|
  {
    x != y && (y in w.arcs[x] || (Deeper(w.stack, x, y) && Sees(w, x, y)) || (Deeper(w.stack, y, x) && Sees(w, y, x)))
  }

  /** The nodes that the two ends of an arc stand for are different, and the one that
      gets its colour later will see the other. */
  ghost predicate Coherent(w: View) {
    Shape(w) && forall x: nat, y: nat :: x < |w.arcs| && y < |w.arcs| && y in w.arcs[x] ==>
      Safe(w, Rep(w, x), Rep(w, y))
  }

  // ---------- a graph without merges ----------

  /** Without merging, any stack will do. */
  lemma AnyOrder(w: View)
    requires Shape(w) && w.merged == []
    ensures Coherent(w)
  {
  }

  // ---------- pushing a node ----------

  function Pushed(w: View, f: nat): View {
    w.(stack := [f] + w.stack)
  }

  lemma PushShape(w: View, f: nat)
    requires Shape(w) && f < |w.arcs| && f !in w.stack && f !in w.merged
    ensures Shape(Pushed(w, f))
    ensures forall v: nat :: v < |w.arcs| ==> Rep(Pushed(w, f), v) == Rep(w, v)
  {
    forall v: nat | v < |w.arcs| ensures Rep(Pushed(w, f), v) == Rep(w, v) {
      RepSameMerges(w, Pushed(w, f), v);
    }
  }

  lemma {:induction false} RepSameMerges(w: View, w': View, v: nat)
    requires Shape(w) && Shape(w') && v < |w.arcs| == |w'.arcs| && w.alias == w'.alias && w.merged == w'.merged
    ensures Rep(w', v) == Rep(w, v)
    decreases if v in w.merged then |w.merged| - IndexOf(w.merged, v) else 0
  {
    if v in w.merged {
      AliasLater(w, v);
      RepSameMerges(w, w', w.alias[v]);
    }
  }

  lemma DeeperAfterPush(stack: seq<nat>, f: nat, x: nat, y: nat)
    requires Deeper(stack, x, y)
    ensures Deeper([f] + stack, x, y)
  {
    var i :| 0 <= i < |stack| && stack[i] == x && y !in stack[i..];
    assert ([f] + stack)[i + 1] == x && ([f] + stack)[i + 1..] == stack[i..];
  }

  lemma PushKeeps(w: View, f: nat)
    requires Coherent(w) && f < |w.arcs| && f !in w.stack && f !in w.merged
    ensures Coherent(Pushed(w, f))
  {
    hide Shape, Deeper;
    var w' := Pushed(w, f);
    PushShape(w, f);
    forall x: nat, y: nat | x < |w.arcs| && y < |w.arcs| && y in w.arcs[x] ensures Safe(w', Rep(w', x), Rep(w', y)) {
      var a, b := Rep(w, x), Rep(w, y);
      assert Safe(w, a, b);
      if Deeper(w.stack, a, b) {
        DeeperAfterPush(w.stack, f, a, b);
      }
      if Deeper(w.stack, b, a) {
        DeeperAfterPush(w.stack, f, b, a);
      }
    }
  }

  // ---------- how many colours a stacked node can meet ----------

  /** The nodes that neighbours of v stand for and that get their colours before v:
      those that are not below v on the stack. */
  ghost function Above(w: View, v: nat): set<nat>
    requires Shape(w) && v < |w.arcs|
  {
    set z | z in w.arcs[v] && !Deeper(w.stack, RepOf(w, z), v) :: RepOf(w, z)
  }

  ghost function RepOf(w: View, v: nat): nat
    requires Shape(w)
  {
    if v < |w.arcs| then Rep(w, v) else v
  }

  /** Each stacked node meets at most as many colours as it had live neighbours when it
      was pushed. */
  ghost predicate DegreesHold(w: View, degree: map<nat, nat>) {
    Shape(w) && forall v :: v in w.stack ==> v in degree && v < |w.arcs| && |Above(w, v)| <= degree[v]
  }

  // ---------- merging two nodes ----------

  /** The arcs after an arc between each of `nodes` and v has been inserted. */
  function Joined(arcs: seq<set<nat>>, v: nat, nodes: set<nat>): seq<set<nat>> {
    seq(|arcs|, x requires 0 <= x < |arcs| => if x == v then arcs[x] + nodes else if x in nodes then arcs[x] + {v}
      else arcs[x])
  }

  function Elems(s: seq<nat>): set<nat> {
    set v | v in s
  }

  /** Neighbours that are neither on the stack nor merged. */
  function Adjacent(w: View, v: nat): set<nat>
    requires v < |w.arcs|
  {
    w.arcs[v] - Elems(w.stack) - Elems(w.merged)
  }

  /** b is merged into a; its live neighbours become neighbours of a. */
  function Combined(w: View, a: nat, b: nat): View
    requires b < |w.arcs| && b < |w.alias|
  {
    View(Joined(w.arcs, a, Adjacent(w, b)), w.alias[b := a], w.merged + [b], w.stack)
  }

  ghost predicate Mergeable(w: View, a: nat, b: nat) {
    && Shape(w) && a < |w.arcs| && b < |w.arcs| && a != b && b !in w.arcs[a]
    && a !in w.merged && b !in w.merged && a !in w.stack && b !in w.stack
  }

  lemma JoinedArcs(arcs: seq<set<nat>>, v: nat, nodes: set<nat>)
    requires Arcs(arcs) && v < |arcs| && v !in nodes && forall x :: x in nodes ==> x < |arcs|
    ensures Arcs(Joined(arcs, v, nodes))
  {
  }

  lemma CombineShape(w: View, a: nat, b: nat)
    requires Mergeable(w, a, b)
    ensures Shape(Combined(w, a, b))
  {
    var w' := Combined(w, a, b);
    assert a !in w.arcs[b];
    JoinedArcs(w.arcs, a, Adjacent(w, b));
    forall i | 0 <= i < |w'.merged|
      ensures w'.merged[i] < |w'.arcs| && w'.alias[w'.merged[i]] < |w'.arcs|
      ensures w'.alias[w'.merged[i]] !in w'.merged[..i + 1]
    {
      if i < |w.merged| {
        assert w'.merged[..i + 1] == w.merged[..i + 1] && w'.merged[i] == w.merged[i];
        assert w.merged[i] in w.merged;
      } else {
        assert w'.merged[..i + 1] == w.merged + [b];
      }
    }
    forall i, j | 0 <= i < j < |w'.merged| ensures w'.merged[i] != w'.merged[j] {
      if j == |w.merged| {
        assert w.merged[i] in w.merged;
      }
    }
    forall i | 0 <= i < |w'.stack| ensures w'.stack[i] < |w'.arcs| && w'.stack[i] !in w'.merged {
      assert w.stack[i] in w.stack;
    }
  }

  /** Who stood for itself and was b now stands for a. */
  lemma {:induction false} RepCombined(w: View, a: nat, b: nat, v: nat)
    requires Mergeable(w, a, b) && v < |w.arcs|
    ensures Shape(Combined(w, a, b))
    ensures Rep(Combined(w, a, b), v) == if Rep(w, v) == b then a else Rep(w, v)
    decreases if v in w.merged then |w.merged| - IndexOf(w.merged, v) else 0
  {
    hide Shape;
    ShapeFacts(w);
    CombineShape(w, a, b);
    var w' := Combined(w, a, b);
    ShapeFacts(w');
    if v in w.merged {
      AliasLater(w, v);
      RepCombined(w, a, b, w.alias[v]);
      assert v in w'.merged && w'.alias[v] == w.alias[v];
    } else if v == b {
      assert v in w'.merged && a !in w'.merged;
    } else {
      assert v !in w'.merged;
    }
  }

  lemma ShapeFacts(w: View)
    requires Shape(w)
    ensures |w.alias| == |w.arcs| && Arcs(w.arcs)
    ensures forall v :: v in w.merged ==> v < |w.arcs| && w.alias[v] < |w.arcs|
    ensures forall v :: v in w.stack ==> v < |w.arcs| && v !in w.merged
  {
  }

  lemma NotDeeper(stack: seq<nat>, x: nat, y: nat)
    requires x !in stack
    ensures !Deeper(stack, x, y)
  {
  }

  lemma DeepestAbsent(stack: seq<nat>, x: nat, y: nat)
    requires x in stack && y !in stack
    ensures Deeper(stack, x, y)
  {
    var i := IndexOf(stack, x);
    assert forall k :: i <= k < |stack| ==> stack[i..][k - i] == stack[k];
  }

  lemma SeesCombined(w: View, a: nat, b: nat, x: nat, y: nat)
    requires Mergeable(w, a, b) && x < |w.arcs| && y < |w.arcs| && Sees(w, x, y)
    ensures Shape(Combined(w, a, b)) && Sees(Combined(w, a, b), x, if y == b then a else y)
  {
    hide Shape;
    ShapeFacts(w);
    CombineShape(w, a, b);
    var z: nat :| z < |w.arcs| && z in w.arcs[x] && Rep(w, z) == y;
    RepCombined(w, a, b, z);
    assert z in Combined(w, a, b).arcs[x];
  }

  /** A pair that was safe stays safe when b is replaced by a. */
  lemma SafeCombined(w: View, a: nat, b: nat, x: nat, y: nat)
    requires Mergeable(w, a, b) && x < |w.arcs| && y < |w.arcs| && Safe(w, x, y) && x !in w.merged && y !in w.merged
    ensures Shape(Combined(w, a, b))
    ensures Safe(Combined(w, a, b), if x == b then a else x, if y == b then a else y)
  {
    hide Shape, Deeper, Sees;
    CombineShape(w, a, b);
    ShapeFacts(w);
    var w' := Combined(w, a, b);
    var x', y' := if x == b then a else x, if y == b then a else y;
    NotDeeper(w.stack, a, b);
    NotDeeper(w.stack, b, a);
    NotDeeper(w.stack, a, y);
    NotDeeper(w.stack, b, y);
    NotDeeper(w.stack, a, x);
    NotDeeper(w.stack, b, x);
    if Deeper(w.stack, x, y) && Sees(w, x, y) {
      SeesCombined(w, a, b, x, y);
      StillDeeper(w.stack, x, y, y', b);
    } else if Deeper(w.stack, y, x) && Sees(w, y, x) {
      SeesCombined(w, a, b, y, x);
      StillDeeper(w.stack, y, x, x', b);
    } else if x == b {
      ArcCombined(w, a, b, y);
    } else if y == b {
      ArcCombined(w, a, b, x);
    } else {
      assert y in w'.arcs[x];
    }
  }

  lemma StillDeeper(stack: seq<nat>, x: nat, y: nat, y': nat, b: nat)
    requires Deeper(stack, x, y) && (y' == y || (y' !in stack && y == b))
    ensures Deeper(stack, x, y') && x in stack
  {
    if y' != y {
      DeepestAbsent(stack, x, y');
    }
  }

  /** A neighbour of b becomes a neighbour of a, or it is on the stack and sees a. */
  lemma ArcCombined(w: View, a: nat, b: nat, y: nat)
    requires Mergeable(w, a, b) && y < |w.arcs| && y in w.arcs[b] && y !in w.merged
    ensures Shape(Combined(w, a, b)) && y != a && Safe(Combined(w, a, b), a, y) && Safe(Combined(w, a, b), y, a)
  {
    hide Deeper;
    CombineShape(w, a, b);
    var w' := Combined(w, a, b);
    if y in w.stack {
      DeepestAbsent(w.stack, y, a);
      RepCombined(w, a, b, b);
      assert b in w.arcs[y] && b in w'.arcs[y];
      assert Sees(w', y, a);
    } else {
      assert y in Adjacent(w, b);
      assert y in w'.arcs[a] && a in w'.arcs[y];
    }
  }

  /** Merging keeps the graph coherent. */
  lemma CombineKeeps(w: View, a: nat, b: nat)
    requires Coherent(w) && Mergeable(w, a, b)
    ensures Coherent(Combined(w, a, b))
  {
    hide Shape, Safe;
    ShapeFacts(w);
    var w' := Combined(w, a, b);
    CombineShape(w, a, b);
    forall x: nat, y: nat | x < |w'.arcs| && y < |w'.arcs| && y in w'.arcs[x] ensures Safe(w', Rep(w', x), Rep(w', y)) {
      RepCombined(w, a, b, x);
      RepCombined(w, a, b, y);
      if y in w.arcs[x] {
        SafeCombined(w, a, b, Rep(w, x), Rep(w, y));
      } else {
        NewArc(w, a, b, x, y);
      }
    }
  }

  lemma NewArc(w: View, a: nat, b: nat, x: nat, y: nat)
    requires Mergeable(w, a, b) && x < |w.arcs| && y < |w.arcs| && y in Combined(w, a, b).arcs[x] && y !in w.arcs[x]
    ensures Shape(Combined(w, a, b))
    ensures var w' := Combined(w, a, b); Safe(w', Rep(w', x), Rep(w', y))
  {
    hide Shape;
    ShapeFacts(w);
    CombineShape(w, a, b);
    RepCombined(w, a, b, x);
    RepCombined(w, a, b, y);
    if x == a {
      ArcCombined(w, a, b, y);
    } else {
      ArcCombined(w, a, b, x);
    }
  }

  // ---------- degrees ----------

  lemma {:induction false} ImageSmaller(s: set<nat>, t: set<nat>, f: nat -> nat)
    requires forall y :: y in t ==> exists x :: x in s && f(x) == y
    ensures |t| <= |s|
    decreases t
  {
    if t != {} {
      var y :| y in t;
      var x :| x in s && f(x) == y;
      ImageSmaller(s - {x}, t - {y}, f);
      assert |s - {x}| == |s| - 1 && |t - {y}| == |t| - 1;
    }
  }

  lemma NotInTail(f: nat, s: seq<nat>, i: nat)
    requires Distinct([f] + s) && i <= |s|
    ensures f !in s && f !in s[i..]
  {
    assert ([f] + s)[0] == f && forall k :: 0 <= k < |s| ==> ([f] + s)[k + 1] == s[k];
  }

  lemma PushedTop(w: View, f: nat, z: nat)
    requires Distinct([f] + w.stack)
    ensures Deeper(Pushed(w, f).stack, z, f) <==> z in w.stack
  {
    var stack := [f] + w.stack;
    if z in w.stack {
      var i := IndexOf(w.stack, z);
      assert stack[i + 1] == z && stack[i + 1..] == w.stack[i..];
      NotInTail(f, w.stack, i);
    } else {
      forall i | 0 <= i < |stack| && stack[i] == z ensures f in stack[i..] {
        assert stack[1..] == w.stack && i == 0;
        assert stack[0..] == stack && stack[0] == f;
      }
    }
  }

  /** A node pushed now meets just its live neighbours. */
  lemma AboveWhenPushed(w: View, f: nat)
    requires Coherent(w) && f < |w.arcs| && f !in w.stack && f !in w.merged
    ensures Shape(Pushed(w, f)) && Above(Pushed(w, f), f) <= Adjacent(w, f)
  {
    hide Deeper, Shape;
    ShapeFacts(w);
    PushShape(w, f);
    StackDistinct(Pushed(w, f));
    var w' := Pushed(w, f);
    forall r | r in Above(w', f) ensures r in Adjacent(w, f) {
      var z :| z in w'.arcs[f] && !Deeper(w'.stack, RepOf(w', z), f) && r == RepOf(w', z);
      ArcInRange(w, f, z);
      PushedTop(w, f, r);
      assert Safe(w, Rep(w, f), Rep(w, z));
      NotDeeper(w.stack, f, r);
      NotDeeper(w.stack, r, f);
    }
  }

  lemma ArcInRange(w: View, x: nat, z: nat)
    requires Shape(w) && x < |w.arcs| && z in w.arcs[x]
    ensures z < |w.arcs|
  {
  }

  lemma StackDistinct(w: View)
    requires Shape(w)
    ensures Distinct(w.stack)
  {
  }

  lemma DeeperInPushed(stack: seq<nat>, f: nat, x: nat, v: nat)
    requires Distinct([f] + stack) && v in stack
    ensures Deeper([f] + stack, x, v) <==> Deeper(stack, x, v)
  {
    if Deeper(stack, x, v) {
      DeeperAfterPush(stack, f, x, v);
    }
    var j := IndexOf(stack, v);
    assert ([f] + stack)[0..] == [f] + stack && ([f] + stack)[j + 1] == v;
    if Deeper([f] + stack, x, v) {
      var i :| 0 <= i < |[f] + stack| && ([f] + stack)[i] == x && v !in ([f] + stack)[i..];
      assert i > 0;
      assert ([f] + stack)[i..] == stack[i - 1..] && stack[i - 1] == x;
    }
  }

  lemma PushDegrees(w: View, f: nat, degree: map<nat, nat>)
    requires Coherent(w) && DegreesHold(w, degree) && f < |w.arcs| && f !in w.stack && f !in w.merged
    ensures DegreesHold(Pushed(w, f), degree[f := |Adjacent(w, f)|])
  {
    hide Deeper, Shape, Coherent, Above, Adjacent, Rep;
    ShapeOf(w);
    PushShape(w, f);
    var w' := Pushed(w, f);
    StackDistinct(w');
    AboveWhenPushed(w, f);
    MustFlow.CardinalityMonotone(Above(w', f), Adjacent(w, f));
    ShapeFacts(w);
    forall v | v in w'.stack && v != f ensures v < |w.arcs| && Above(w', v) == Above(w, v) {
      assert v in w.stack;
      AboveKept(w, f, v);
    }
  }

  lemma AboveKept(w: View, f: nat, v: nat)
    requires Shape(w) && f < |w.arcs| && f !in w.stack && f !in w.merged && v in w.stack && v < |w.arcs|
    ensures Shape(Pushed(w, f)) && Above(Pushed(w, f), v) == Above(w, v)
  {
    hide Deeper, Shape;
    PushShape(w, f);
    var w' := Pushed(w, f);
    StackDistinct(w');
    forall z | z in w.arcs[v]
      ensures RepOf(w', z) == RepOf(w, z) && (Deeper(w'.stack, RepOf(w, z), v) <==> Deeper(w.stack, RepOf(w, z), v))
    {
      DeeperInPushed(w.stack, f, RepOf(w, z), v);
    }
  }

  lemma ShapeOf(w: View)
    requires Coherent(w)
    ensures Shape(w)
  {
  }

  lemma CombineDegrees(w: View, a: nat, b: nat, degree: map<nat, nat>)
    requires Mergeable(w, a, b) && DegreesHold(w, degree)
    ensures DegreesHold(Combined(w, a, b), degree)
  {
    hide Deeper, Shape;
    ShapeFacts(w);
    CombineShape(w, a, b);
    var w' := Combined(w, a, b);
    forall v | v in w'.stack ensures v in degree && v < |w'.arcs| && |Above(w', v)| <= degree[v] {
      assert w'.arcs[v] == w.arcs[v];
      var f := (x: nat) => if x == b then a else x;
      forall r | r in Above(w', v) ensures exists x :: x in Above(w, v) && f(x) == r {
        var z :| z in w'.arcs[v] && !Deeper(w'.stack, RepOf(w', z), v) && r == RepOf(w', z);
        ArcInRange(w, v, z);
        RepCombined(w, a, b, z);
        NotDeeper(w.stack, b, v);
        assert RepOf(w, z) in Above(w, v) && f(RepOf(w, z)) == r;
      }
      ImageSmaller(Above(w, v), Above(w', v), f);
    }
  }

  // ---------- handing out colours ----------

  const NO_COLOR := -1

  ghost predicate Differ(hard: seq<int>, x: nat, y: nat)
    requires x < |hard| && y < |hard|
  {
    hard[x] == NO_COLOR || hard[x] != hard[y]
  }

  /** A neighbour of v, by its alias, has colour c. */
  ghost predicate Met(w: View, hard: seq<int>, v: nat, c: int)
    requires Shape(w) && v < |w.arcs| == |hard|
  {
    exists z: nat :: z < |w.arcs| && z in w.arcs[v] && hard[Rep(w, z)] == c
  }

  lemma BelowIsLeft(stack: seq<nat>, k: nat, y: nat)
    requires k < |stack| && Distinct(stack) && Deeper(stack, y, stack[k])
    ensures y in stack[k + 1..]
  {
    forall j | 0 <= j <= k ensures stack[k] in stack[j..] {
      assert stack[j..][k - j] == stack[k];
    }
    var i :| 0 <= i < |stack| && stack[i] == y && stack[k] !in stack[i..];
    assert stack[k + 1..][i - (k + 1)] == y;
  }

  lemma SafeDiffers(w: View, x: nat, y: nat)
    requires Shape(w) && x < |w.arcs| && y < |w.arcs| && Safe(w, x, y)
    ensures x != y
  {
  }

  /** The nodes of `loose` that neighbours of v stand for. */
  ghost function Near(w: View, v: nat, loose: set<nat>): set<nat>
    requires Shape(w) && v < |w.arcs|
  {
    set z | z in w.arcs[v] && RepOf(w, z) in loose :: RepOf(w, z)
  }

  /** The colours that are taken when v is popped are those of nodes above it and of nodes
      that have had their colours all the time. */
  lemma TakenFromAbove(w: View, hard: seq<int>, k: nat, taken: set<nat>, loose: set<nat>)
    requires Shape(w) && |hard| == |w.arcs| && k < |w.stack| && w.stack[k] < |w.arcs|
    requires forall i :: k <= i < |w.stack| && w.stack[i] !in loose ==> hard[w.stack[i]] == NO_COLOR
    requires forall c :: c in taken ==> Met(w, hard, w.stack[k], c)
    ensures |taken| <= |Above(w, w.stack[k])| + |Near(w, w.stack[k], loose)|
  {
    hide Deeper;
    var v, above, near := w.stack[k], Above(w, w.stack[k]), Near(w, w.stack[k], loose);
    forall x: nat | x < |hard| && Deeper(w.stack, x, v) && x !in loose ensures hard[x] == NO_COLOR {
      BelowIsLeft(w.stack, k, x);
      var j := IndexOf(w.stack[k + 1..], x);
      assert w.stack[k + 1 + j] == x;
    }
    forall c | c in taken ensures HasColor(above + near, hard, c) {
      assert Met(w, hard, v, c);
      var z: nat :| z < |w.arcs| && z in w.arcs[v] && hard[Rep(w, z)] == c;
      assert RepOf(w, z) in above || RepOf(w, z) in near;
    }
    ColorImage(above + near, taken, hard);
    assert |above + near| <= |above| + |near|;
  }

  ghost predicate HasColor(s: set<nat>, hard: seq<int>, c: int) {
    exists x: nat :: x in s && x < |hard| && hard[x] == c
  }

  lemma {:induction false} ColorImage(s: set<nat>, t: set<nat>, hard: seq<int>)
    requires forall c :: c in t ==> HasColor(s, hard, c)
    ensures |t| <= |s|
    decreases t
  {
    if t != {} {
      var c :| c in t;
      assert HasColor(s, hard, c);
      var x: nat :| x in s && x < |hard| && hard[x] == c;
      forall d | d in t - {c} ensures HasColor(s - {x}, hard, d) {
        assert HasColor(s, hard, d);
        var y: nat :| y in s && y < |hard| && hard[y] == d;
        assert y in s - {x};
      }
      ColorImage(s - {x}, t - {c}, hard);
      assert |s - {x}| == |s| - 1 && |t - {c}| == |t| - 1;
    }
  }
}
