/** assign_colors of backend/ra-colorize.c on values: which colour each node of the select stack
    gets, and for which arcs that is enough. */
module ColoringAssign {
  import opened Coloring
  import MustFlow

  /** The state in which the stack is emptied. */
  datatype Setup =
    Setup(w: View, classes: seq<set<nat>>, regClass: seq<nat>, precolored: set<nat>, degree: map<nat, nat>)

  /** The precoloured nodes that have been put on the stack. Their colours are in the way
      though they count as gone, and they do not look out for colours given before. */
  function Loose(t: Setup): set<nat> {
    t.precolored * Elems(t.w.stack)
  }

  /** p kept its colour on the stack, and v, which is given one, has no neighbour that stands
      for p. */
  ghost predicate Blind(t: Setup, p: nat, v: nat)
    requires Shape(t.w) && v < |t.w.arcs|
  {
    p in Loose(t) && v !in t.precolored && !Sees(t.w, v, p)
  }

  /** A stacked node without a colour had, when it was pushed, at least as many live
      neighbours as its class has colours, counting precoloured ones on the stack. */
  ghost predicate MayFail(t: Setup, v: nat) {
    && Shape(t.w) && v in t.w.stack && v < |t.w.arcs| && v < |t.regClass| && t.regClass[v] < |t.classes|
    && v in t.degree && t.degree[v] + |Near(t.w, v, Loose(t))| >= |t.classes[t.regClass[v]]|
  }

  /** A neighbour of the i-th node of the stack that is coloured before it has colour c. */
  ghost predicate TakenBefore(t: Setup, hard: seq<int>, i: nat, c: int)
    requires Shape(t.w) && |hard| == |t.w.arcs| && i < |t.w.stack|
  {
    t.w.stack[i] < |t.w.arcs| &&
    exists z: nat :: z < |t.w.arcs| && z in t.w.arcs[t.w.stack[i]] && hard[Rep(t.w, z)] == c
                     && (Rep(t.w, z) !in t.w.stack[i..] || Rep(t.w, z) in t.precolored)
  }

  /** The colours that the i-th node of the stack may have. */
  ghost predicate InClass(t: Setup, i: nat, c: int) {
    i < |t.w.stack| && t.w.stack[i] < |t.regClass| && t.regClass[t.w.stack[i]] < |t.classes| && c >= 0
    && c in t.classes[t.regClass[t.w.stack[i]]]
  }

  /** c is the first colour of the class that is not taken. */
  ghost predicate FirstFree(t: Setup, hard: seq<int>, i: nat, c: int)
    requires Shape(t.w) && |hard| == |t.w.arcs| && i < |t.w.stack|
  {
    InClass(t, i, c) && !TakenBefore(t, hard, i, c) && forall d :: InClass(t, i, d) && d < c ==>
      TakenBefore(t, hard, i, d)
  }

  /** The i-th node has that colour, or none if all are taken. */
  ghost predicate FirstFit(t: Setup, hard: seq<int>, i: nat) {
    && Shape(t.w) && |hard| == |t.w.arcs| && i < |t.w.stack| && t.w.stack[i] < |hard|
    && if hard[t.w.stack[i]] == NO_COLOR then forall d :: InClass(t, i, d) ==> TakenBefore(t, hard, i, d)
       else FirstFree(t, hard, i, hard[t.w.stack[i]])
  }

  /** Only the colours of nodes that come before the i-th one matter to it. */
  lemma SameTaken(t: Setup, hard: seq<int>, hard': seq<int>, i: nat)
    requires Shape(t.w) && |hard| == |hard'| == |t.w.arcs| && i < |t.w.stack|
    requires forall x: nat :: x < |hard| && x !in t.w.merged && (x !in t.w.stack[i..] || x in t.precolored) ==>
               hard'[x] == hard[x]
    ensures forall c :: TakenBefore(t, hard', i, c) <==> TakenBefore(t, hard, i, c)
  {
    hide Shape;
    ShapeFacts(t.w);
    forall z: nat | z < |t.w.arcs| && (Rep(t.w, z) !in t.w.stack[i..] || Rep(t.w, z) in t.precolored)
      ensures hard'[Rep(t.w, z)] == hard[Rep(t.w, z)]
    {
    }
  }

  lemma SameFit(t: Setup, hard: seq<int>, hard': seq<int>, i: nat)
    requires FirstFit(t, hard, i) && |hard'| == |hard| && hard'[t.w.stack[i]] == hard[t.w.stack[i]]
    requires forall x: nat :: x < |hard| && x !in t.w.merged && (x !in t.w.stack[i..] || x in t.precolored) ==>
               hard'[x] == hard[x]
    ensures FirstFit(t, hard', i)
  {
    hide Shape, TakenBefore, InClass;
    SameTaken(t, hard, hard', i);
  }

  // ---------- emptying the stack ----------

  ghost predicate Waiting(hard: seq<int>, v: nat) {
    v < |hard| && hard[v] == NO_COLOR
  }

  /** Everything has its place, and only precoloured nodes have colours from the start. */
  ghost predicate Complete(t: Setup, hard: seq<int>) {
    && Shape(t.w) && |hard| == |t.w.arcs| == |t.regClass|
    && (forall v :: 0 <= v < |t.regClass| ==> t.regClass[v] < |t.classes|)
    && (forall v: nat :: v < |hard| ==> v in t.precolored || v in t.w.stack || v in t.w.merged)
    && (forall v :: v in t.precolored ==> v < |hard| && hard[v] >= 0 && v !in t.w.merged)
    && (forall v, u :: v in t.precolored && u in t.precolored && v != u ==>
          v < |hard| && u < |hard| && hard[v] != hard[u])
  }

  /** After k nodes have been popped. */
  ghost predicate Assigning(t: Setup, k: nat, hard0: seq<int>, hard: seq<int>, spilled: set<nat>) {
    && Complete(t, hard) && DegreesHold(t.w, t.degree) && k <= |t.w.stack| && |hard| == |hard0|
    && (forall v :: 0 <= v < |hard| ==> hard[v] >= NO_COLOR)
    && (forall v :: v in t.precolored ==> v < |hard| && hard[v] == hard0[v] && v !in spilled)
    && (forall v :: v in t.w.merged ==> v < |hard| && hard[v] == NO_COLOR)
    && (forall i :: k <= i < |t.w.stack| && t.w.stack[i] !in t.precolored ==>
          Waiting(hard, t.w.stack[i]) && t.w.stack[i] !in spilled)
    && (forall i :: 0 <= i < k && t.w.stack[i] !in t.precolored ==>
          FirstFit(t, hard, i) && (t.w.stack[i] in spilled <==> hard[t.w.stack[i]] == NO_COLOR))
    && (forall v :: v in spilled ==> MayFail(t, v))
  }

  lemma SuffixFacts(t: Setup, k: nat, hard0: seq<int>, hard: seq<int>, spilled: set<nat>)
    requires Assigning(t, k, hard0, hard, spilled) && k < |t.w.stack|
    ensures Shape(t.w) && Shape(t.w.(stack := t.w.stack[k + 1..])) && t.w.stack[k..][0] == t.w.stack[k]
    ensures t.w.stack[k..][1..] == t.w.stack[k + 1..]
    ensures t.w.stack[k] < |hard| == |t.w.arcs| == |t.regClass| && t.regClass[t.w.stack[k]] < |t.classes|
    ensures forall i :: k <= i < |t.w.stack| ==>
              t.w.stack[i] < |hard| && (t.w.stack[i] !in Loose(t) ==> hard[t.w.stack[i]] == NO_COLOR)
    ensures forall u :: 0 <= u < |hard| ==> hard[u] >= NO_COLOR
  {
    hide DegreesHold, FirstFit, MayFail;
    var w, w' := t.w, t.w.(stack := t.w.stack[k + 1..]);
    assert forall i :: 0 <= i < |w'.stack| ==> w'.stack[i] == w.stack[k + 1 + i];
    forall i | k <= i < |w.stack| ensures w.stack[i] in t.precolored ==> w.stack[i] in Loose(t) {
      assert w.stack[i] in w.stack;
    }
  }

  /** When a node is popped, what its neighbours have is what is taken. */
  lemma TakenNow(t: Setup, hard: seq<int>, k: nat, c: int)
    requires Shape(t.w) && |hard| == |t.w.arcs| && k < |t.w.stack| && t.w.stack[k] < |hard| && c >= 0
    requires forall i :: k <= i < |t.w.stack| && t.w.stack[i] !in t.precolored ==> Waiting(hard, t.w.stack[i])
    ensures TakenBefore(t, hard, k, c) <==> Met(t.w, hard, t.w.stack[k], c)
  {
    hide Shape;
    forall r | r in t.w.stack[k..] && r !in t.precolored ensures r < |hard| && hard[r] == NO_COLOR {
      var j := IndexOf(t.w.stack[k..], r);
      assert t.w.stack[k + j] == r;
      assert Waiting(hard, t.w.stack[k + j]);
    }
  }

  /** The node on top gets c, the first colour of its class that no neighbour has, or none. */
  ghost predicate Picks(t: Setup, k: nat, hard: seq<int>, c: int) {
    && Shape(t.w) && |hard| == |t.w.arcs| && k < |t.w.stack| && t.w.stack[k] < |hard|
    && (c == NO_COLOR || (InClass(t, k, c) && !Met(t.w, hard, t.w.stack[k], c)))
    && forall d :: InClass(t, k, d) && (c == NO_COLOR || d < c) ==> Met(t.w, hard, t.w.stack[k], d)
  }

  lemma PicksNone(t: Setup, k: nat, hard: seq<int>)
    requires Shape(t.w) && |hard| == |t.w.arcs| == |t.regClass| && k < |t.w.stack| && t.w.stack[k] < |hard|
    requires t.regClass[t.w.stack[k]] < |t.classes|
    requires forall c :: c in t.classes[t.regClass[t.w.stack[k]]] ==> Met(t.w, hard, t.w.stack[k], c)
    ensures Picks(t, k, hard, NO_COLOR)
  {
    hide Shape, Met;
  }

  lemma PicksFirst(t: Setup, k: nat, hard: seq<int>, c: nat, free: set<nat>)
    requires Shape(t.w) && |hard| == |t.w.arcs| == |t.regClass| && k < |t.w.stack| && t.w.stack[k] < |hard|
    requires t.regClass[t.w.stack[k]] < |t.classes| && c in free && forall d :: d in free ==> c <= d
    requires forall d :: d in free <==> d in t.classes[t.regClass[t.w.stack[k]]] && !Met(t.w, hard, t.w.stack[k], d)
    ensures Picks(t, k, hard, c) && c != NO_COLOR
  {
    hide Shape, Met;
  }

  lemma PickedFits(t: Setup, k: nat, hard: seq<int>, c: int)
    requires Picks(t, k, hard, c)
    requires forall i :: k <= i < |t.w.stack| && t.w.stack[i] !in t.precolored ==> Waiting(hard, t.w.stack[i])
    requires t.w.stack[k] !in t.precolored
    ensures FirstFit(t, hard[t.w.stack[k] := c], k)
  {
    hide Shape, Met, TakenBefore;
    forall d | InClass(t, k, d) ensures TakenBefore(t, hard, k, d) <==> Met(t.w, hard, t.w.stack[k], d) {
      TakenNow(t, hard, k, d);
    }
    assert t.w.stack[k..][0] == t.w.stack[k];
    SameTaken(t, hard, hard[t.w.stack[k] := c], k);
  }

  /** One node that had no colour is popped. */
  lemma PopStep(t: Setup, k: nat, hard0: seq<int>, hard: seq<int>, spilled: set<nat>, c: int)
    requires Assigning(t, k, hard0, hard, spilled) && Picks(t, k, hard, c) && hard[t.w.stack[k]] == NO_COLOR
    requires c == NO_COLOR ==> MayFail(t, t.w.stack[k])
    ensures Assigning(t, k + 1, hard0, hard[t.w.stack[k] := c],
                      if c == NO_COLOR then spilled + {t.w.stack[k]} else spilled)
  {
    hide Shape, DegreesHold, MayFail, FirstFit, Met;
    ShapeFacts(t.w);
    StackDistinct(t.w);
    var v, hard' := t.w.stack[k], hard[t.w.stack[k] := c];
    assert v in t.w.stack && v !in t.precolored;
    PickedFits(t, k, hard, c);
    forall i | 0 <= i < k && t.w.stack[i] !in t.precolored ensures FirstFit(t, hard', i) {
      assert t.w.stack[i..][k - i] == v;
      SameFit(t, hard, hard', i);
    }
  }

  /** A node that has its colour already keeps it. */
  lemma OldColor(t: Setup, k: nat, hard0: seq<int>, hard: seq<int>, spilled: set<nat>)
    requires Assigning(t, k, hard0, hard, spilled) && k < |t.w.stack| && t.w.stack[k] < |hard|
    requires hard[t.w.stack[k]] != NO_COLOR
    ensures Assigning(t, k + 1, hard0, hard, spilled)
  {
    hide Shape, DegreesHold, MayFail, FirstFit;
    assert t.w.stack[k] !in t.precolored ==> Waiting(hard, t.w.stack[k]);
  }

  /** Too many neighbours have colours. */
  lemma Fails(t: Setup, k: nat)
    requires DegreesHold(t.w, t.degree) && Shape(t.w) && k < |t.w.stack| && t.w.stack[k] < |t.w.arcs| == |t.regClass|
    requires t.regClass[t.w.stack[k]] < |t.classes|
    requires |t.classes[t.regClass[t.w.stack[k]]]| <=
             |Above(t.w, t.w.stack[k])| + |Near(t.w, t.w.stack[k], Loose(t))|
    ensures MayFail(t, t.w.stack[k])
  {
    hide Shape, Above, Near;
    assert t.w.stack[k] in t.w.stack;
  }

  // ---------- the arcs ----------

  ghost predicate AllFit(t: Setup, hard: seq<int>) {
    forall i :: 0 <= i < |t.w.stack| && t.w.stack[i] !in t.precolored ==> FirstFit(t, hard, i)
  }

  /** A node that is coloured after one it sees gets another colour. */
  lemma SeesDiffers(t: Setup, hard: seq<int>, i: nat, a: nat)
    requires AllFit(t, hard) && Shape(t.w) && i < |t.w.stack| && t.w.stack[i] !in t.precolored
    requires t.w.stack[i] < |hard| == |t.w.arcs| && a < |hard| && Sees(t.w, t.w.stack[i], a)
    requires a !in t.w.stack[i..] || a in t.precolored
    ensures Differ(hard, t.w.stack[i], a) && Differ(hard, a, t.w.stack[i])
  {
    hide Shape, InClass;
    assert FirstFit(t, hard, i);
    var z: nat :| z < |t.w.arcs| && z in t.w.arcs[t.w.stack[i]] && Rep(t.w, z) == a;
    assert TakenBefore(t, hard, i, hard[a]);
  }

  lemma AboveNotDeeper(stack: seq<nat>, i: nat, j: nat)
    requires Distinct(stack) && i < j < |stack|
    ensures !Deeper(stack, stack[i], stack[j])
  {
    forall m | 0 <= m < |stack| && stack[m] == stack[i] ensures stack[j] in stack[m..] {
      assert m == i && stack[m..][j - m] == stack[j];
    }
  }

  lemma SuffixHas(stack: seq<nat>, i: nat)
    requires i <= |stack|
    ensures forall k :: i <= k < |stack| ==> stack[k] in stack[i..]
  {
    forall k | i <= k < |stack| ensures stack[k] in stack[i..] {
      assert stack[i..][k - i] == stack[k];
    }
  }

  /** Of two stacked nodes at the ends of an arc the lower one sees the other. */
  lemma LowerSees(w: View, i: nat, j: nat)
    requires Shape(w) && i < j < |w.stack| && w.stack[i] < |w.arcs| && w.stack[j] < |w.arcs|
    requires Safe(w, w.stack[i], w.stack[j])
    ensures Sees(w, w.stack[j], w.stack[i]) && w.stack[i] !in w.stack[j..]
  {
    StackDistinct(w);
    AboveNotDeeper(w.stack, i, j);
    forall x | x in w.stack[j..] ensures x != w.stack[i] {
      assert w.stack[j + IndexOf(w.stack[j..], x)] == x;
    }
    var a, b := w.stack[i], w.stack[j];
    if b in w.arcs[a] {
      assert a in w.arcs[b] && Rep(w, a) == a;
    }
  }

  /** A node that is safe from one that is not stacked sees it. */
  lemma UnstackedSeen(w: View, p: nat, v: nat)
    requires Shape(w) && p < |w.arcs| && v < |w.arcs| && Safe(w, p, v) && p !in w.stack && p !in w.merged
    ensures Sees(w, v, p)
  {
    hide Deeper;
    NotDeeper(w.stack, p, v);
    if v in w.arcs[p] {
      assert p in w.arcs[v] && Rep(w, p) == p;
    }
  }

  lemma SafeBoth(w: View, x: nat, y: nat)
    requires Coherent(w) && x < |w.arcs| && y < |w.arcs| && y in w.arcs[x]
    ensures Shape(w) && Safe(w, Rep(w, x), Rep(w, y)) && Safe(w, Rep(w, y), Rep(w, x))
  {
    assert x in w.arcs[y];
  }

  /** The nodes that the ends of an arc stand for differ in colour unless one is blind to the
      other. */
  lemma EndsDiffer(t: Setup, hard: seq<int>, x: nat, y: nat)
    requires Complete(t, hard) && Coherent(t.w) && AllFit(t, hard)
    requires x < |hard| && y < |hard| && y in t.w.arcs[x]
    ensures var a, b := Rep(t.w, x), Rep(t.w, y);
            Differ(hard, a, b) || Blind(t, a, b) || Blind(t, b, a)
  {
    SafeBoth(t.w, x, y);
    var a, b := Rep(t.w, x), Rep(t.w, y);
    hide Coherent, AllFit;
    if a in t.precolored && b !in t.precolored {
      FixedEnd(t, hard, a, b);
    } else if b in t.precolored && a !in t.precolored {
      FixedEnd(t, hard, b, a);
    } else if a !in t.precolored {
      hide Safe, Sees, Deeper, Shape;
      SafeDiffers(t.w, a, b);
      var i, j := IndexOf(t.w.stack, a), IndexOf(t.w.stack, b);
      if i < j {
        LowerSees(t.w, i, j);
        SeesDiffers(t, hard, j, a);
      } else {
        LowerSees(t.w, j, i);
        SeesDiffers(t, hard, i, b);
      }
    } else {
      SafeDiffers(t.w, a, b);
    }
  }

  lemma FixedEnd(t: Setup, hard: seq<int>, p: nat, v: nat)
    requires Complete(t, hard) && AllFit(t, hard) && p < |hard| && v < |hard| && Safe(t.w, p, v)
    requires p in t.precolored && v !in t.precolored && v !in t.w.merged
    ensures (Differ(hard, p, v) && Differ(hard, v, p)) || Blind(t, p, v)
  {
    hide Sees, Deeper, Shape, AllFit;
    if p !in t.w.stack {
      UnstackedSeen(t.w, p, v);
    }
    if Sees(t.w, v, p) {
      SeesDiffers(t, hard, IndexOf(t.w.stack, v), p);
    }
  }

  // ---------- the outcome ----------

  ghost function WithMerged(w: View, hard: seq<int>): seq<int>
    requires Shape(w) && |hard| == |w.arcs|
  {
    seq(|hard|, v requires 0 <= v < |hard| => hard[Rep(w, v)])
  }

  /** The ends of the arc differ in colour, or have been spilled, unless the node that one of
      them stands for is blind to the other. */
  ghost predicate Kept(t: Setup, hard: seq<int>, x: nat, y: nat)
    requires Shape(t.w) && x < |hard| == |t.w.arcs| && y < |hard|
  {
    Differ(hard, x, y) || Blind(t, Rep(t.w, x), Rep(t.w, y)) || Blind(t, Rep(t.w, y), Rep(t.w, x))
  }

  /** The outcome: precoloured nodes keep their colours, each other node of the stack has the
      first colour of its class that is not taken, or has been spilled because all are, which
      happens only to nodes that were pushed with many neighbours, and merged nodes have the
      colours of their aliases. */
  ghost predicate Colored(t: Setup, hard0: seq<int>, hard: seq<int>, spilled: set<nat>) {
    && Complete(t, hard) && |hard| == |hard0| && AllFit(t, hard)
    && (forall x: nat, y: nat :: x < |hard| && y < |hard| && y in t.w.arcs[x] ==> Kept(t, hard, x, y))
    && (forall v :: v in t.precolored ==> v < |hard| && hard[v] == hard0[v])
    && (forall v: nat :: v < |hard| ==>
          (v in spilled <==> v in t.w.stack && v !in t.precolored && hard[v] == NO_COLOR))
    && (forall v :: v in spilled ==> v < |hard| && MayFail(t, v))
    && (forall v :: v in t.w.merged ==> v < |hard| && hard[v] == hard[Rep(t.w, v)])
  }

  lemma MergedAlone(w: View, hard: seq<int>)
    requires Shape(w) && |hard| == |w.arcs|
    ensures |WithMerged(w, hard)| == |hard|
    ensures forall v: nat :: v < |hard| ==> WithMerged(w, hard)[v] == hard[Rep(w, v)]
    ensures forall v: nat :: v < |hard| && v !in w.merged ==> WithMerged(w, hard)[v] == hard[v]
    ensures forall v :: v in w.merged ==> v < |hard| && WithMerged(w, hard)[v] == WithMerged(w, hard)[Rep(w, v)]
  {
    ShapeFacts(w);
    hide Shape;
  }

  lemma AllAssigned(t: Setup, k: nat, hard0: seq<int>, hard: seq<int>, spilled: set<nat>)
    requires Assigning(t, k, hard0, hard, spilled) && t.w.stack[k..] == [] && Coherent(t.w)
    ensures Shape(t.w) && Shape(t.w.(stack := [])) && |hard| == |t.w.arcs|
    ensures Colored(t, hard0, WithMerged(t.w, hard), spilled)
  {
    hide DegreesHold, Coherent, FirstFit, Blind, MayFail, WithMerged, Differ;
    assert Shape(t.w.(stack := []));
    hide Shape;
    ShapeFacts(t.w);
    MergedAlone(t.w, hard);
    var all := WithMerged(t.w, hard);
    assert AllFit(t, hard);
    forall i | 0 <= i < |t.w.stack| && t.w.stack[i] !in t.precolored ensures FirstFit(t, all, i) {
      assert t.w.stack[i] in t.w.stack;
      StackedFits(t, hard, i);
    }
    forall x: nat, y: nat | x < |hard| && y < |hard| && y in t.w.arcs[x] ensures Kept(t, all, x, y) {
      EndsDiffer(t, hard, x, y);
      SameDiffer(hard, all, Rep(t.w, x), Rep(t.w, y), x, y);
    }
    forall v: nat | v < |hard| ensures v in spilled <==> v in t.w.stack && v !in t.precolored && all[v] == NO_COLOR {
      if v in t.w.stack && v !in t.precolored {
        assert IndexOf(t.w.stack, v) < k;
      }
      if v in spilled {
        SpilledStacked(t, v);
      }
    }
    assert forall v :: v in spilled ==> MayFail(t, v) && v < |hard| by {
      forall v | v in spilled ensures v < |hard| {
        SpilledStacked(t, v);
      }
    }
    assert Complete(t, all);
  }

  lemma SameDiffer(hard: seq<int>, all: seq<int>, a: nat, b: nat, x: nat, y: nat)
    requires a < |hard| && b < |hard| && x < |all| && y < |all| && all[x] == hard[a] && all[y] == hard[b]
    ensures Differ(all, x, y) <==> Differ(hard, a, b)
  {
  }

  lemma SpilledStacked(t: Setup, v: nat)
    requires MayFail(t, v)
    ensures v in t.w.stack && v < |t.w.arcs|
  {
  }

  lemma StackedFits(t: Setup, hard: seq<int>, i: nat)
    requires Shape(t.w) && |hard| == |t.w.arcs| && i < |t.w.stack| && t.w.stack[i] < |hard|
    requires t.w.stack[i] !in t.w.merged && FirstFit(t, hard, i)
    ensures FirstFit(t, WithMerged(t.w, hard), i)
  {
    hide Shape, FirstFit;
    SameFit(t, hard, WithMerged(t.w, hard), i);
  }

  /** An arc is right whenever each of its ends is unmerged or stands for a precoloured node. */
  lemma UnmergedKept(t: Setup, hard: seq<int>, x: nat, y: nat)
    requires Shape(t.w) && x < |hard| == |t.w.arcs| && y < |hard| && y in t.w.arcs[x] && Kept(t, hard, x, y)
    requires x !in t.w.merged || Rep(t.w, x) in t.precolored
    requires y !in t.w.merged || Rep(t.w, y) in t.precolored
    ensures Differ(hard, x, y)
  {
    assert x in t.w.arcs[y];
    hide Shape, Loose;
    if Rep(t.w, x) !in t.precolored {
      assert Sees(t.w, x, Rep(t.w, y));
    }
    if Rep(t.w, y) !in t.precolored {
      assert Sees(t.w, y, Rep(t.w, x));
    }
  }

  /** v is blind to p, and p's colour is the first one free for it. */
  ghost predicate Clashes(t: Setup, hard: seq<int>, p: nat, v: nat)
    requires Shape(t.w) && p < |hard| == |t.w.arcs| && v < |hard|
  {
    Blind(t, p, v) && v in t.w.stack && FirstFree(t, hard, IndexOf(t.w.stack, v), hard[p])
  }

  /** Exactly when two interfering nodes get one colour. */
  lemma ClashExactly(t: Setup, hard0: seq<int>, hard: seq<int>, spilled: set<nat>, x: nat, y: nat)
    requires Colored(t, hard0, hard, spilled) && x < |hard| && y < |hard| && y in t.w.arcs[x]
    ensures !Differ(hard, x, y) <==>
              Clashes(t, hard, Rep(t.w, x), Rep(t.w, y)) || Clashes(t, hard, Rep(t.w, y), Rep(t.w, x))
  {
    assert Kept(t, hard, x, y);
    assert hard[x] == hard[Rep(t.w, x)] && hard[y] == hard[Rep(t.w, y)];
    BlindExactly(t, hard, Rep(t.w, x), Rep(t.w, y));
    BlindExactly(t, hard, Rep(t.w, y), Rep(t.w, x));
  }

  lemma BlindExactly(t: Setup, hard: seq<int>, p: nat, v: nat)
    requires Complete(t, hard) && AllFit(t, hard) && p < |hard| && v < |hard| && v !in t.w.merged
    ensures Clashes(t, hard, p, v) <==> Blind(t, p, v) && hard[p] == hard[v]
  {
    hide Shape, Sees, TakenBefore;
    if Blind(t, p, v) {
      var i := IndexOf(t.w.stack, v);
      assert FirstFit(t, hard, i);
      assert hard[p] >= 0;
    }
  }

  /** Not merged, or merged into a precoloured node. */
  ghost predicate Plain(t: Setup, v: nat)
    requires Shape(t.w) && v < |t.w.arcs|
  {
    v !in t.w.merged || Rep(t.w, v) in t.precolored
  }

  /** Two interfering nodes differ in colour or have been spilled, with just one exception: one
      of them has been merged into a node that is blind to the other. */
  ghost predicate Separate(t: Setup, hard: seq<int>, x: nat, y: nat) {
    && x < |hard| && y < |hard| && Shape(t.w) && |hard| == |t.w.arcs|
    && (x != y && Plain(t, x) && Plain(t, y) ==> Differ(hard, x, y))
    && (x != y ==>
          (!Differ(hard, x, y) <==>
           Clashes(t, hard, Rep(t.w, x), Rep(t.w, y)) || Clashes(t, hard, Rep(t.w, y), Rep(t.w, x))))
  }

  lemma ArcSeparate(t: Setup, hard0: seq<int>, hard: seq<int>, spilled: set<nat>, x: nat, y: nat)
    requires Colored(t, hard0, hard, spilled) && x < |hard| && y < |hard| && (x == y || y in t.w.arcs[x])
    ensures Separate(t, hard, x, y)
  {
    if x != y {
      ClashExactly(t, hard0, hard, spilled, x, y);
      hide Clashes, Blind;
      if Plain(t, x) && Plain(t, y) {
        UnmergedKept(t, hard, x, y);
      }
    }
  }

  // ---------- the colours are determined ----------

  /** There is no other outcome: what assign_colors finds decides about every colour. */
  lemma Determined(t: Setup, hard0: seq<int>, hard: seq<int>, spilled: set<nat>, hard': seq<int>, spilled': set<nat>)
    requires Colored(t, hard0, hard, spilled) && Colored(t, hard0, hard', spilled')
    ensures hard' == hard && spilled' == spilled
  {
    SameUpTo(t, hard, hard', |t.w.stack|);
    forall v: nat | v < |hard| ensures hard'[v] == hard[v] {
      var r := Rep(t.w, v);
      assert r in t.precolored || r in t.w.stack;
      if r !in t.precolored {
        var i := IndexOf(t.w.stack, r);
      }
    }
    assert forall v :: v in spilled <==> v in spilled';
  }

  lemma {:induction false} SameUpTo(t: Setup, hard: seq<int>, hard': seq<int>, n: nat)
    requires Complete(t, hard) && Complete(t, hard') && AllFit(t, hard) && AllFit(t, hard') && n <= |t.w.stack|
    requires forall v :: v in t.precolored ==> v < |hard| && hard'[v] == hard[v]
    ensures forall i :: 0 <= i < n ==> t.w.stack[i] < |hard| && hard'[t.w.stack[i]] == hard[t.w.stack[i]]
  {
    if n > 0 {
      SameUpTo(t, hard, hard', n - 1);
      var i := n - 1;
      if t.w.stack[i] !in t.precolored {
        SuffixHas(t.w.stack, i);
        forall x: nat | x < |hard| && x !in t.w.merged && (x !in t.w.stack[i..] || x in t.precolored)
          ensures hard'[x] == hard[x]
        {
          if x !in t.precolored {
            assert IndexOf(t.w.stack, x) < i;
          }
        }
        assert FirstFit(t, hard, i) && FirstFit(t, hard', i);
        SameTaken(t, hard, hard', i);
        OneFits(t, hard, hard', i);
      }
    }
  }

  lemma OneFits(t: Setup, hard: seq<int>, hard': seq<int>, i: nat)
    requires FirstFit(t, hard, i) && FirstFit(t, hard', i)
    requires forall c :: TakenBefore(t, hard', i, c) <==> TakenBefore(t, hard, i, c)
    ensures hard'[t.w.stack[i]] == hard[t.w.stack[i]]
  {
    hide Shape, TakenBefore, InClass;
  }

  lemma CountFree(avail: set<nat>, free: set<nat>, taken: set<nat>)
    requires free <= avail && forall c :: c in avail ==> (c in free <==> c !in taken)
    ensures |avail| <= |free| + |taken|
  {
    var lost := avail - free;
    assert avail == free + lost;
    MustFlow.CardinalityMonotone(lost, taken);
  }
}
