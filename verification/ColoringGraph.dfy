/** The interference graph of backend/ra-colorize.c, changed in place: arcs, degrees,
    worklists, the select stack and the colours. */
module ColoringGraph {
  import opened Cfg
  import opened Coloring
  import opened ColoringAssign
  import opened ColoringLists
  import opened ColoringRounds
  import MpInt
  import SpillCost

  /** The first number of a set of colours. */
  method FirstSetBit(s: set<nat>) returns (c: nat)
    requires s != {}
    ensures c in s && forall d :: d in s ==> c <= d
  {
    ghost var some :| some in s;
    c := 0;
    while c !in s
      invariant c <= some && forall d :: d in s ==> c <= d
      decreases some - c
    {
      c := c + 1;
    }
  }

  lemma JoinedOne(arcs: seq<set<nat>>, i: nat, j: nat)
    requires Arcs(arcs) && i < |arcs| && j < |arcs| && i != j
    ensures Joined(arcs, j, {i}) == arcs[i := arcs[i] + {j}][j := arcs[j] + {i}]
    ensures i in arcs[j] ==> Joined(arcs, j, {i}) == arcs
    ensures Arcs(Joined(arcs, j, {i}))
  {
    JoinedArcs(arcs, j, {i});
    if i in arcs[j] {
      assert arcs[j] + {i} == arcs[j] && arcs[i] + {j} == arcs[i];
    }
  }

  /** A live node's count is the number of its live neighbours. */
  ghost predicate Counted(w: View, conflicts: seq<int>) {
    |conflicts| == |w.arcs| && forall v: nat :: v < |w.arcs| && v !in w.stack && v !in w.merged ==>
      conflicts[v] == |Adjacent(w, v)|
  }

  lemma CountedAt(conflicts: seq<int>, w: View, v: nat)
    requires Counted(w, conflicts) && v < |w.arcs| && v !in w.stack && v !in w.merged
    ensures v < |conflicts| && conflicts[v] == |Adjacent(w, v)|
  {
  }

  /** Pushing f takes one from each of its live neighbours and nothing from the others. */
  lemma PushCounts(w: View, f: nat, before: seq<int>, after: seq<int>)
    requires Shape(w) && Counted(w, before) && f < |w.arcs| && f !in w.stack && f !in w.merged
    requires after == LessOne(before, Adjacent(w, f))
    ensures Counted(Pushed(w, f), after)
  {
    hide Adjacent;
    forall v: nat | v < |w.arcs| && v !in [f] + w.stack && v !in w.merged
      ensures after[v] == |Adjacent(Pushed(w, f), v)|
    {
      PushCount(w, f, v);
    }
  }

  lemma PushCount(w: View, f: nat, v: nat)
    requires Shape(w) && f < |w.arcs| && f !in w.stack && f !in w.merged && v < |w.arcs| && v !in [f] + w.stack
    requires v !in w.merged
    ensures v !in w.stack && |Adjacent(Pushed(w, f), v)| == |Adjacent(w, v)| - (if v in Adjacent(w, f) then 1 else 0)
  {
    AdjacentPushed(w, f, v);
    assert v != f && v !in w.stack by {
      assert ([f] + w.stack)[0] == f;
      assert forall k :: 0 <= k < |w.stack| ==> ([f] + w.stack)[k + 1] == w.stack[k];
    }
    assert f in Adjacent(w, v) <==> v in Adjacent(w, f);
  }

  lemma AdjacentPushed(w: View, f: nat, v: nat)
    requires v < |w.arcs|
    ensures Adjacent(Pushed(w, f), v) == Adjacent(w, v) - {f}
  {
    assert Elems([f] + w.stack) == Elems(w.stack) + {f} by {
      assert forall x :: x in [f] + w.stack <==> x == f || x in w.stack;
    }
  }

  lemma LiveNeighbours(w: View, f: nat)
    requires Shape(w) && f < |w.arcs|
    ensures Adjacent(Pushed(w, f), f) == Adjacent(w, f)
    ensures forall v :: v in Adjacent(w, f) ==> v < |w.arcs|
  {
    AdjacentPushed(w, f, f);
    assert f !in w.arcs[f];
  }

  // ---------- counts while two nodes are merged ----------

  /** The counts with an arc between i and a. */
  function WithArc(arcs: seq<set<nat>>, conflicts: seq<int>, i: nat, a: nat): seq<int>
    requires a < |arcs| && i < |conflicts| && a < |conflicts|
  {
    if i in arcs[a] then conflicts else conflicts[i := conflicts[i] + 1][a := conflicts[a] + 1]
  }

  /** What one neighbour of b adds to the arcs, the counts and the lists. */
  lemma JoinStep(f: Fixed, l0: Lists, w: View, a: nat, before: seq<int>, nodes: set<nat>, done: set<nat>, i: nat,
                 now: seq<int>, moves: seq<set<nat>>, last: View)
    requires a < |w.arcs| == |before| && i < |w.arcs| && i != a && i in nodes && i !in done && a !in done
    requires now == MergedCounts(w, a, before, done)
    ensures |now| == |before| == |Bumped(w, a, before, nodes)| && |Joined(w.arcs, a, done)| == |w.arcs|
    ensures Joined(Joined(w.arcs, a, done), a, {i}) == Joined(w.arcs, a, done + {i})
    ensures var joined := WithArc(Joined(w.arcs, a, done), now, i, a);
            && joined[i := joined[i] - 1] == MergedCounts(w, a, before, done + {i})
            && Decremented(f, Dropped(f, l0, Bumped(w, a, before, nodes), done), joined, i) ==
                 Dropped(f, l0, Bumped(w, a, before, nodes), done + {i})
  {
    JoinedMore(w.arcs, a, done, i);
    MergedMore(w, a, before, done, i, now);
    JoinedAt(w.arcs, a, done, i);
    MergedBumped(w, a, before, nodes, done, i);
    hide MergedCounts, Bumped, Joined, Dropped, Decremented;
    DroppedMore(f, l0, Bumped(w, a, before, nodes), done, i);
  }

  lemma MergedBumped(w: View, a: nat, before: seq<int>, nodes: set<nat>, done: set<nat>, i: nat)
    requires a < |w.arcs| == |before| && i < |w.arcs| && i != a && i in nodes && i !in done
    ensures |MergedCounts(w, a, before, done)| == |before| == |Bumped(w, a, before, nodes)|
    ensures WithArc(w.arcs, MergedCounts(w, a, before, done), i, a)[i] == Bumped(w, a, before, nodes)[i]
  {
  }

  /** The neighbours of i are those that it has in the end as soon as it has been joined. */
  lemma SameWoken(f: Fixed, w: View, last: View, now: View, a: nat, done: set<nat>, nodes: set<nat>, i: nat,
                  before: seq<int>, moves: seq<set<nat>>)
    requires a < |w.arcs| == |before| && i < |w.arcs| && i != a && i in nodes && i !in done && a !in nodes
    requires last.arcs == Joined(w.arcs, a, nodes) && now.arcs == Joined(w.arcs, a, done + {i})
    requires now.alias == last.alias && now.merged == last.merged && now.stack == last.stack
    ensures |MergedCounts(w, a, before, done)| == |before| && |Joined(w.arcs, a, done)| == |w.arcs|
    ensures var joined := WithArc(Joined(w.arcs, a, done), MergedCounts(w, a, before, done), i, a);
            MovesOf(moves, Woken(f, last, Bumped(w, a, before, nodes), done + {i})) ==
            MovesOf(moves, Woken(f, last, Bumped(w, a, before, nodes), done))
              + MovesOf(moves, WokenBy(f, now, joined, i))
  {
    JoinedAt(w.arcs, a, done, i);
    MergedBumped(w, a, before, nodes, done, i);
    assert now.arcs[i] == last.arcs[i];
    assert Adjacent(now, i) == Adjacent(last, i);
    var joined := WithArc(Joined(w.arcs, a, done), MergedCounts(w, a, before, done), i, a);
    assert |joined| == |before|;
    assert WokenBy(f, now, joined, i) == WokenBy(f, last, joined, i);
    hide MergedCounts, Bumped, Joined, WokenBy, Woken, MovesOf, Adjacent;
    WokenMore(f, last, Bumped(w, a, before, nodes), joined, done, i, moves);
  }

  lemma JoinedMore(arcs: seq<set<nat>>, a: nat, done: set<nat>, i: nat)
    requires a < |arcs| && i != a && a !in done
    ensures Joined(Joined(arcs, a, done), a, {i}) == Joined(arcs, a, done + {i})
  {
    assert arcs[a] + done + {i} == arcs[a] + (done + {i});
    forall x | 0 <= x < |arcs| ensures Joined(Joined(arcs, a, done), a, {i})[x] == Joined(arcs, a, done + {i})[x] {
    }
  }

  /** One neighbour of b: joined to a, then its count goes down by one. */
  lemma MergedMore(w: View, a: nat, before: seq<int>, done: set<nat>, i: nat, now: seq<int>)
    requires a < |w.arcs| == |before| && i < |w.arcs| && i != a && i !in done && now == MergedCounts(w, a, before, done)
    ensures var joined := WithArc(w.arcs, now, i, a);
            joined[i := joined[i] - 1] == MergedCounts(w, a, before, done + {i})
  {
    assert (done + {i}) - w.arcs[a] == (done - w.arcs[a]) + (if i in w.arcs[a] then {} else {i});
  }

  lemma MergedAll(w: View, a: nat, b: nat, before: seq<int>)
    requires Mergeable(w, a, b) && Counted(w, before)
    ensures Counted(Combined(w, a, b), MergedCounts(w, a, before, Adjacent(w, b)))
  {
    hide Adjacent, MergedCounts, Shape;
    ShapeFacts(w);
    var w' := Combined(w, a, b);
    assert |MergedCounts(w, a, before, Adjacent(w, b))| == |before| by { MergedLength(w, a, before, Adjacent(w, b)); }
    forall v: nat | v < |w'.arcs| && v !in w'.stack && v !in w'.merged
      ensures MergedCounts(w, a, before, Adjacent(w, b))[v] == |Adjacent(w', v)|
    {
      assert v != b && v !in w.merged by {
        assert (w.merged + [b])[|w.merged|] == b;
        assert forall k :: 0 <= k < |w.merged| ==> (w.merged + [b])[k] == w.merged[k];
      }
      MergedCount(w, a, b, before, v);
    }
  }

  lemma MergedLength(w: View, a: nat, before: seq<int>, done: set<nat>)
    requires a < |w.arcs|
    ensures |MergedCounts(w, a, before, done)| == |before|
  {
  }

  lemma MergedCount(w: View, a: nat, b: nat, before: seq<int>, v: nat)
    requires Mergeable(w, a, b) && Counted(w, before) && v < |w.arcs| && v !in w.stack && v !in w.merged && v != b
    ensures |MergedCounts(w, a, before, Adjacent(w, b))| == |before| == |w.arcs| && b < |w.alias|
    ensures MergedCounts(w, a, before, Adjacent(w, b))[v] == |Adjacent(Combined(w, a, b), v)|
  {
    hide Shape, Adjacent;
    ShapeFacts(w);
    CountedAt(before, w, v);
    if v == a {
      MergedIntoCount(w, a, b);
    } else if v in Adjacent(w, b) {
      MergedNeighbourCount(w, a, b, v);
    } else {
      MergedOtherCount(w, a, b, v);
    }
  }

  lemma MergedArcs(w: View, a: nat, b: nat, v: nat)
    requires Mergeable(w, a, b) && v < |w.arcs|
    ensures b < |w.alias| && |Combined(w, a, b).arcs| == |w.arcs|
    ensures var arcs := if v == a then w.arcs[a] + Adjacent(w, b) else if v in Adjacent(w, b) then w.arcs[v] + {a}
              else w.arcs[v];
            Adjacent(Combined(w, a, b), v) == arcs - Elems(w.stack) - Elems(w.merged) - {b}
  {
    hide Shape;
    ShapeFacts(w);
    assert Elems(w.merged + [b]) == Elems(w.merged) + {b} by {
      assert forall x :: x in w.merged + [b] <==> x == b || x in w.merged;
    }
  }

  lemma MergedIntoCount(w: View, a: nat, b: nat)
    requires Mergeable(w, a, b)
    ensures b < |w.alias| && |Adjacent(Combined(w, a, b), a)| == |Adjacent(w, a)| + |Adjacent(w, b) - w.arcs[a]|
  {
    hide Combined;
    MergedArcs(w, a, b, a);
    Symmetric(w, a, b);
    MergeNodes(w, a, b);
    var more := Adjacent(w, b) - w.arcs[a];
    assert Adjacent(Combined(w, a, b), a) == Adjacent(w, a) + more;
    assert Adjacent(w, a) !! more;
  }

  lemma MergedNeighbourCount(w: View, a: nat, b: nat, v: nat)
    requires Mergeable(w, a, b) && v in Adjacent(w, b) && v != a && v < |w.arcs|
    ensures b < |w.alias| && |Adjacent(Combined(w, a, b), v)| == |Adjacent(w, v)| - (if v in w.arcs[a] then 1 else 0)
  {
    hide Combined;
    MergedArcs(w, a, b, v);
    MergedNeighbour(w, a, b, v);
    hide Adjacent, Mergeable;
    ExchangeCount(Adjacent(w, v), a, b);
  }

  lemma MergedNeighbour(w: View, a: nat, b: nat, v: nat)
    requires Mergeable(w, a, b) && v in Adjacent(w, b) && v != a && v < |w.arcs|
    ensures b in Adjacent(w, v) && (a in Adjacent(w, v) <==> v in w.arcs[a])
    ensures w.arcs[v] + {a} - Elems(w.stack) - Elems(w.merged) - {b} == Adjacent(w, v) - {b} + {a}
  {
    Both(w, b, v);
    Both(w, a, v);
  }

  lemma ExchangeCount(s: set<nat>, a: nat, b: nat)
    requires a != b && b in s
    ensures |s - {b} + {a}| == |s| - (if a in s then 1 else 0)
  {
    var rest := s - {b};
    assert |rest| == |s| - 1;
    if a in s {
      assert rest + {a} == rest;
    }
  }

  lemma MergedOtherCount(w: View, a: nat, b: nat, v: nat)
    requires Mergeable(w, a, b) && v !in Adjacent(w, b) && v != a && v < |w.arcs| && v !in w.stack && v !in w.merged
    ensures b < |w.alias| && Adjacent(Combined(w, a, b), v) == Adjacent(w, v)
  {
    hide Combined;
    MergedArcs(w, a, b, v);
    Both(w, b, v);
  }

  lemma Both(w: View, x: nat, y: nat)
    requires Shape(w) && x < |w.arcs| && y < |w.arcs|
    ensures x in w.arcs[y] <==> y in w.arcs[x]
  {
  }

  lemma MergeNodes(w: View, a: nat, b: nat)
    requires Mergeable(w, a, b)
    ensures a !in Adjacent(w, b) && b !in Adjacent(w, b) && Arcs(w.arcs)
    ensures forall v :: v in Adjacent(w, b) ==> v < |w.arcs|
    ensures w.arcs[b] - Elems(w.stack) - (Elems(w.merged) + {b}) == Adjacent(w, b)
    ensures Elems(w.merged + [b]) == Elems(w.merged) + {b} && b !in w.arcs[b]
  {
    assert forall x :: x in w.merged + [b] <==> x == b || x in w.merged;
  }

  /** No arcs, nothing stacked, nothing merged. */
  lemma EmptyGraph(w: View, conflicts: seq<int>)
    requires w.merged == [] && w.stack == [] && |w.alias| == |w.arcs| == |conflicts|
    requires forall v :: 0 <= v < |w.arcs| ==> w.arcs[v] == {} && conflicts[v] == 0
    ensures Coherent(w) && DegreesHold(w, map[]) && Counted(w, conflicts)
  {
  }

  /** An arc more while nothing is stacked or merged. */
  lemma ArcKeeps(w: View, i: nat, j: nat, degree: map<nat, nat>, before: seq<int>, after: seq<int>)
    requires Shape(w) && w.stack == [] && w.merged == [] && i < |w.arcs| && j < |w.arcs| && i != j
    requires Counted(w, before)
    requires after == if i in w.arcs[j] then before else before[i := before[i] + 1][j := before[j] + 1]
    ensures var w' := w.(arcs := Joined(w.arcs, j, {i}));
            Shape(w') && Coherent(w') && DegreesHold(w', degree) && Counted(w', after)
  {
    var w' := w.(arcs := Joined(w.arcs, j, {i}));
    JoinedOne(w.arcs, i, j);
    AnyOrder(w');
    ArcCounts(w, w', i, j, before, after);
  }

  lemma ArcCounts(w: View, w': View, i: nat, j: nat, before: seq<int>, after: seq<int>)
    requires Shape(w) && w.stack == [] && w.merged == [] && i < |w.arcs| && j < |w.arcs| && i != j
    requires Counted(w, before) && w' == w.(arcs := w.arcs[i := w.arcs[i] + {j}][j := w.arcs[j] + {i}])
    requires after == if i in w.arcs[j] then before else before[i := before[i] + 1][j := before[j] + 1]
    ensures Counted(w', after)
  {
    Both(w, i, j);
    PlainCounts(w, before);
    PlainCounts(w', after);
    hide Counted, Shape;
    LengthsMore(w.arcs, i, j, before, after);
  }

  /** With nothing stacked or merged all neighbours count. */
  lemma PlainCounts(w: View, conflicts: seq<int>)
    requires w.stack == [] && w.merged == []
    ensures Counted(w, conflicts) <==>
            |conflicts| == |w.arcs| && forall v: nat :: v < |w.arcs| ==> conflicts[v] == |w.arcs[v]|
  {
    AllAdjacent(w);
    hide Adjacent;
    if Counted(w, conflicts) {
      forall v: nat | v < |w.arcs| ensures conflicts[v] == |w.arcs[v]| {
        assert Adjacent(w, v) == w.arcs[v];
      }
    }
  }

  lemma LengthsMore(arcs: seq<set<nat>>, i: nat, j: nat, before: seq<int>, after: seq<int>)
    requires i < |arcs| && j < |arcs| && i != j && (i in arcs[j] <==> j in arcs[i])
    requires |before| == |arcs| && forall v: nat :: v < |arcs| ==> before[v] == |arcs[v]|
    requires after == if i in arcs[j] then before else before[i := before[i] + 1][j := before[j] + 1]
    ensures |after| == |arcs|
    ensures forall v: nat :: v < |arcs| ==> after[v] == |arcs[i := arcs[i] + {j}][j := arcs[j] + {i}][v]|
  {
    MemberMore(arcs[i], j);
    MemberMore(arcs[j], i);
  }

  lemma MemberMore(s: set<nat>, x: nat)
    ensures |s + {x}| == |s| + (if x in s then 0 else 1)
  {
    if x in s {
      assert s + {x} == s;
    }
  }

  lemma AllAdjacent(w: View)
    requires w.stack == [] && w.merged == []
    ensures forall v: nat :: v < |w.arcs| ==> Adjacent(w, v) == w.arcs[v]
  {
  }

  /** The arcs at the start and one for each pair of different nodes. */
  ghost predicate ArcsAre(start: seq<set<nat>>, arcs: seq<set<nat>>, pairs: seq<(nat, nat)>) {
    && |start| == |arcs|
    && forall x, y :: 0 <= x < |arcs| ==>
         (y in arcs[x] <==> y in start[x] || (x != y && ((x, y) in pairs || (y, x) in pairs)))
  }

  lemma NoPairs(arcs: seq<set<nat>>)
    ensures ArcsAre(arcs, arcs, [])
  {
  }

  lemma OnePair(start: seq<set<nat>>, before: seq<set<nat>>, after: seq<set<nat>>, pairs: seq<(nat, nat)>, i: nat,
                j: nat)
    requires ArcsAre(start, before, pairs) && i < |before| && j < |before|
    requires after == if i == j then before else Joined(before, j, {i})
    ensures ArcsAre(start, after, pairs + [(i, j)])
  {
    assert forall p :: p in pairs + [(i, j)] <==> p in pairs || p == (i, j);
  }

  lemma ArcsOf(w: View)
    requires Shape(w)
    ensures Arcs(w.arcs)
  {
  }

  lemma RemadeIs(f: Fixed, l: Lists, w: View, conflicts: seq<int>, a: nat, b: nat, l1: Lists, counts: seq<int>)
    requires a < |w.arcs| && b < |w.arcs| && a < |l.moves| && b < |l.moves|
    requires l1 == Dropped(f, Marked(l, a, b), Bumped(w, a, conflicts, Adjacent(w, b)), Adjacent(w, b))
    requires counts == MergedCounts(w, a, conflicts, Adjacent(w, b))
    ensures Left(f, l1, counts, a) == Remade(f, l, w, conflicts, a, b)
  {
    hide Dropped, Marked, Bumped, MergedCounts, Adjacent, Left;
  }

  lemma ReopenedIs(f: Fixed, moves: seq<set<nat>>, w: View, conflicts: seq<int>, a: nat, b: nat)
    requires a < |w.arcs| && b < |w.arcs| && b < |w.alias|
    ensures Reopened(f, moves, w, conflicts, a, b) ==
            MovesOf(moves, {b}) + MovesOf(moves, Woken(f, Combined(w, a, b), Bumped(w, a, conflicts, Adjacent(w, b)),
                                                      Adjacent(w, b)))
  {
    hide Woken, Bumped, Combined, Adjacent, MovesOf;
  }

  class Ifg {
    const classes: seq<set<nat>>
    const regClass: seq<nat>
    const precolored: set<nat>
    const ends: map<nat, (nat, nat)>
    var firstin: seq<set<nat>>
    var firstout: seq<set<nat>>
    var conflicts: seq<int>
    var hard: seq<int>
    var alias: seq<nat>
    var moves: seq<set<nat>>
    var simplifyList: set<nat>
    var freezeList: set<nat>
    var spillList: set<nat>
    var selected: set<nat>
    var coalesced: set<nat>
    var mvWorklist: set<nat>
    var mvActive: set<nat>
    var mvCoalesced: set<nat>
    var mvConstrained: set<nat>
    var mvFrozen: set<nat>
    var stack: seq<nat>
    var spilled: set<nat>
    ghost var merged: seq<nat>
    ghost var degree: map<nat, nat>

    ghost function W(): View
      reads this`firstout, this`alias, this`merged, this`stack
    {
      View(firstout, alias, merged, stack)
    }

    function Avail(): seq<nat> {
      seq(|regClass|, v requires 0 <= v < |regClass| => if regClass[v] < |classes| then |classes[regClass[v]]| else 0)
    }

    function F(): Fixed {
      Fixed(Avail(), precolored, ends)
    }

    function L(): Lists
      reads this`simplifyList, this`freezeList, this`spillList, this`mvActive, this`mvWorklist, this`moves
    {
      Lists(simplifyList, freezeList, spillList, mvActive + mvWorklist, moves)
    }

    /** The worklists are as they should be for the nodes of w. */
    ghost predicate Listing(w: View, skip: set<nat>, exempt: set<nat>)
      reads this`simplifyList, this`freezeList, this`spillList, this`mvActive, this`mvWorklist, this`moves,
            this`conflicts
    {
      mvActive !! mvWorklist && ListsOk(F(), L(), w, conflicts, skip, exempt)
    }

    /** Lengths, and what a node may be. */
    ghost predicate Sized()
      reads this`firstout, this`conflicts, this`hard, this`moves, this`stack, this`merged
    {
      && |firstout| == |regClass| == |conflicts| == |hard| == |moves|
      && (forall v :: 0 <= v < |regClass| ==> regClass[v] < |classes|)
      && (forall v :: v in precolored ==> v < |hard| && hard[v] >= 0 && v !in merged)
      && (forall v, u :: v in precolored && u in precolored && v != u ==>
             v < |hard| && u < |hard| && hard[v] != hard[u])
    }

    ghost predicate Valid()
      reads this`firstin, this`firstout, this`conflicts, this`hard, this`moves, this`stack, this`merged, this`alias,
            this`selected,
            this`coalesced, this`degree
    {
      && Sized() && Counted(W(), conflicts)
      && firstin == firstout && selected == Elems(stack) && coalesced == Elems(merged)
      && Coherent(W()) && DegreesHold(W(), degree)
      && Colorless()
    }

    /** Only precoloured nodes have colours. */
    ghost predicate Colorless()
      reads this`hard
    {
      forall v: nat :: v < |hard| && v !in precolored ==> hard[v] == NO_COLOR
    }

    lemma MakeValid()
      requires Sized() && Counted(W(), conflicts) && firstin == firstout && selected == Elems(stack)
      requires coalesced == Elems(merged)
      requires Coherent(W()) && DegreesHold(W(), degree) && Colorless()
      ensures Valid()
    {
    }

    /** The lengths stay and a node is stacked, or merged if it is not precoloured. */
    lemma StaysSized(w: View, f: nat)
      requires Setup'(w) && |firstout| == |regClass| == |conflicts| == |hard| == |moves|
      requires (stack == [f] + w.stack && merged == w.merged) ||
               (stack == w.stack && merged == w.merged + [f] && f !in precolored)
      ensures Sized()
    {
    }

    lemma SameSized(w: View)
      requires Setup'(w) && |firstout| == |regClass| == |conflicts| == |hard| == |moves|
      requires stack == w.stack && merged == w.merged
      ensures Sized()
    {
    }

    /** What Sized says of the colours, for a given stack. */
    ghost predicate Setup'(w: View)
      reads this`hard
    {
      && (forall v :: 0 <= v < |regClass| ==> regClass[v] < |classes|)
      && (forall v :: v in precolored ==> v < |hard| && hard[v] >= 0 && v !in w.merged)
      && (forall v, u :: v in precolored && u in precolored && v != u ==>
             v < |hard| && u < |hard| && hard[v] != hard[u])
    }

    lemma WIs()
      ensures W() == View(firstout, alias, merged, stack)
      ensures Given() == Setup(W(), classes, regClass, precolored, degree)
    {
    }

    lemma LIs()
      ensures L() == Lists(simplifyList, freezeList, spillList, mvActive + mvWorklist, moves)
      ensures F() == Fixed(Avail(), precolored, ends) && |Avail()| == |regClass|
    {
    }

    lemma SetsAre()
      ensures Sets() == MoveSets(mvActive, mvWorklist, mvCoalesced, mvConstrained)
    {
    }

    lemma ListingIs(w: View, skip: set<nat>, exempt: set<nat>)
      ensures Listing(w, skip, exempt) <==> mvActive !! mvWorklist && ListsOk(F(), L(), w, conflicts, skip, exempt)
    {
    }

    lemma Facts()
      requires Valid()
      ensures Coherent(W()) && Shape(W()) && W() == View(firstout, alias, merged, stack) && Sized()
      ensures coalesced == Elems(merged)
      ensures |firstout| == |conflicts| == |moves| == |regClass| == |alias| == |hard| && firstin == firstout
      ensures selected == Elems(stack)
      ensures DegreesHold(W(), degree) && Counted(W(), conflicts) && Colorless() && Setup'(W()) && Arcs(firstout)
      ensures (forall v :: 0 <= v < |regClass| ==> regClass[v] < |classes|)
    {
    }

    function Count(v: nat): nat
      requires v < |regClass| && regClass[v] < |classes|
    {
      |classes[regClass[v]]|
    }

    /** A graph without arcs. */
    constructor (classes: seq<set<nat>>, regClass: seq<nat>, precolored: set<nat>, hard: seq<int>,
                 ends: map<nat, (nat, nat)>)
      requires |hard| == |regClass| && (forall v :: 0 <= v < |regClass| ==> regClass[v] < |classes|)
      requires forall v :: v in precolored ==> v < |hard| && hard[v] >= 0
      requires forall v, u :: v in precolored && u in precolored && v != u ==>
                 v < |hard| && u < |hard| && hard[v] != hard[u]
      requires forall v: nat :: v < |hard| && v !in precolored ==> hard[v] == NO_COLOR
      ensures Valid() && this.classes == classes && this.regClass == regClass && this.precolored == precolored
      ensures this.hard == hard && this.ends == ends && spilled == {}
      ensures L() == Lists({}, {}, {}, {}, seq(|regClass|, v => {}))
      ensures stack == [] && merged == [] && forall v :: 0 <= v < |firstout| ==> firstout[v] == {}
    {
      this.classes, this.regClass, this.precolored, this.hard, this.ends := classes, regClass, precolored, hard, ends;
      var n := |regClass|;
      firstin, firstout, moves := seq(n, v => {}), seq(n, v => {}), seq(n, v => {});
      conflicts, alias := seq(n, v => 0), seq(n, v requires 0 <= v < n => v);
      simplifyList, freezeList, spillList, selected, coalesced := {}, {}, {}, {}, {};
      mvWorklist, mvActive, mvCoalesced, mvConstrained, mvFrozen := {}, {}, {}, {}, {};
      stack, spilled, merged, degree := [], {}, [], map[];
      new;
      hide Coherent, DegreesHold, Counted;
      EmptyGraph(W(), conflicts);
      assert selected == Elems(stack) && coalesced == Elems(merged);
    }

    /** InsertArc: both directions in both lists, both counts up, once. */
    method InsertArc(i: nat, j: nat)
      requires i < |firstout| && j < |firstout| && |conflicts| == |firstout| && firstin == firstout && Arcs(firstout)
      modifies this`firstin, this`firstout, this`conflicts
      ensures firstin == firstout && Arcs(firstout) && |conflicts| == |firstout| == |old(firstout)|
      ensures if i == j then firstout == old(firstout) else firstout == Joined(old(firstout), j, {i})
      ensures conflicts == if i == j || i in old(firstout)[j] then old(conflicts)
                           else old(conflicts)[i := old(conflicts)[i] + 1][j := old(conflicts)[j] + 1]
    {
      if i !in firstin[j] && i != j {
        firstin := firstin[j := firstin[j] + {i}];
        firstout := firstout[i := firstout[i] + {j}];
        firstout := firstout[j := firstout[j] + {i}];
        firstin := firstin[i := firstin[i] + {j}];
        conflicts := conflicts[i := conflicts[i] + 1];
        conflicts := conflicts[j := conflicts[j] + 1];
      }
      if i != j {
        JoinedOne(old(firstout), i, j);
        assert firstout == Joined(old(firstout), j, {i});
      }
    }

    /** The arcs of build_i_graph, one after the other; a node has none with itself. */
    method BuildArcs(pairs: seq<(nat, nat)>)
      requires Valid() && stack == [] && merged == []
      requires forall k :: 0 <= k < |pairs| ==> pairs[k].0 < |firstout| && pairs[k].1 < |firstout|
      modifies this`firstin, this`firstout, this`conflicts
      ensures Valid() && ArcsAre(old(firstout), firstout, pairs)
    {
      hide *;
      Facts();
      NoPairs(firstout);
      var k := 0;
      while k < |pairs|
        invariant 0 <= k <= |pairs| && Valid() && |firstout| == |old(firstout)|
        invariant ArcsAre(old(firstout), firstout, pairs[..k])
      {
        var i, j := pairs[k].0, pairs[k].1;
        BuildArc(i, j, old(firstout), pairs[..k]);
        assert pairs[..k + 1] == pairs[..k] + [(i, j)];
        k := k + 1;
      }
      assert pairs[..k] == pairs;
    }

    method BuildArc(i: nat, j: nat, ghost start: seq<set<nat>>, ghost pairs: seq<(nat, nat)>)
      requires Valid() && stack == [] && merged == [] && i < |firstout| && j < |firstout|
      requires ArcsAre(start, firstout, pairs)
      modifies this`firstin, this`firstout, this`conflicts
      ensures Valid() && |firstout| == |old(firstout)| && ArcsAre(start, firstout, pairs + [(i, j)])
    {
      hide *;
      ghost var before, counts := W(), conflicts;
      Facts();
      WIs();
      if i != j {
        InsertArc(i, j);
      }
      SameSized(before);
      ArcValid(before, i, j, counts);
      OnePair(start, before.arcs, firstout, pairs, i, j);
      Facts();
    }

    lemma ArcValid(w: View, i: nat, j: nat, before: seq<int>)
      requires w.stack == stack == [] && w.merged == merged == [] && w.alias == alias
      requires i < |w.arcs| && j < |w.arcs| && Coherent(w) && Counted(w, before) && DegreesHold(w, degree)
      requires firstin == firstout == if i == j then w.arcs else Joined(w.arcs, j, {i})
      requires conflicts == if i == j || i in w.arcs[j] then before
                            else before[i := before[i] + 1][j := before[j] + 1]
      requires Sized() && Colorless() && selected == Elems(stack) && coalesced == Elems(merged)
      ensures Valid()
    {
      hide Coherent, DegreesHold, Counted, Shape;
      ShapeOf(w);
      if i != j {
        ArcKeeps(w, i, j, degree, before, conflicts);
      }
      WIs();
      assert W() == w.(arcs := firstout);
    }

    /** alias: follow the merges. */
    method AliasOf(v: nat) returns (r: nat)
      requires Shape(W()) && coalesced == Elems(merged) && v < |firstout|
      ensures r == Rep(W(), v) && r < |firstout| && r !in merged
      decreases if v in merged then |merged| - IndexOf(merged, v) else 0
    {
      if v in coalesced {
        AliasLater(W(), v);
        r := AliasOf(alias[v]);
      } else {
        r := v;
      }
    }

    /** `adjacent`. */
    method AdjacentOf(v: nat) returns (r: set<nat>)
      requires v < |firstout| && firstin == firstout && selected == Elems(stack) && coalesced == Elems(merged)
      ensures r == Adjacent(W(), v)
    {
      r := firstin[v] - selected - coalesced;
    }

    function NodeMoves(v: nat): set<nat>
      reads this
      requires v < |moves|
    {
      (mvActive + mvWorklist) * moves[v]
    }

    /** enable_moves: active moves of the nodes go back to the worklist. */
    method EnableMoves(nodes: set<nat>)
      requires forall v :: v in nodes ==> v < |moves|
      modifies this`mvActive, this`mvWorklist
      ensures mvActive == old(mvActive) - MovesOf(moves, nodes)
      ensures mvWorklist == old(mvWorklist) + old(mvActive) * MovesOf(moves, nodes)
      ensures L() == old(L()) && (old(mvActive !! mvWorklist) ==> mvActive !! mvWorklist)
      ensures mvActive + mvWorklist == old(mvActive + mvWorklist) && mvActive <= old(mvActive)
    {
      hide MovesOf;
      var todo := nodes;
      ghost var done: set<nat> := {};
      NoMoves(moves);
      while todo != {}
        invariant todo <= nodes && done == nodes - todo
        invariant mvActive == old(mvActive) - MovesOf(moves, done)
        invariant mvWorklist == old(mvWorklist) + old(mvActive) * MovesOf(moves, done)
        decreases todo
      {
        var v :| v in todo;
        todo := todo - {v};
        var back := NodeMoves(v) * mvActive;
        MoreMoves(moves, done, v);
        done := done + {v};
        mvActive := mvActive - back;
        mvWorklist := mvWorklist + back;
      }
      assert done == nodes;
      assert mvActive + mvWorklist == old(mvActive + mvWorklist);
    }

    /** decrement_degree: when the count falls below the number of colours, the node leaves
        the spill list. */
    method DecrementDegree(v: nat)
      requires Sized() && v < |firstout| && Arcs(firstout) && firstin == firstout && selected == Elems(stack)
      requires coalesced == Elems(merged)
      modifies this`conflicts, this`spillList, this`freezeList, this`simplifyList, this`mvActive, this`mvWorklist
      ensures conflicts == old(conflicts)[v := old(conflicts)[v] - 1]
      ensures |old(conflicts)| == |regClass| == |moves| && L() == Decremented(F(), old(L()), old(conflicts), v)
      ensures (old(mvActive !! mvWorklist) ==> mvActive !! mvWorklist)
      ensures mvActive + mvWorklist == old(mvActive + mvWorklist)
      ensures mvActive == old(mvActive) - MovesOf(moves, WokenBy(F(), W(), old(conflicts), v))
    {
      hide MovesOf;
      NoMoves(moves);
      SizedAt(v);
      var before := conflicts[v];
      conflicts := conflicts[v := conflicts[v] - 1];
      if Count(v) == before {
        var nodes := AdjacentOf(v);
        forall x | x in nodes ensures x < |moves| {
          assert x in firstout[v];
        }
        EnableMoves(nodes + {v});
        spillList := spillList - {v};
        if NodeMoves(v) != {} {
          freezeList := freezeList + {v};
        } else if v !in precolored {
          simplifyList := simplifyList + {v};
        }
      }
    }

    /** simplify: the first node of the worklist goes on the stack, and its live neighbours
        lose a neighbour. */
    method Simplify() returns (f: nat)
      requires Valid() && Listing(W(), {}, {}) && simplifyList != {}
      modifies this
      ensures Valid() && Listing(W(), {}, {})
      ensures f in old(simplifyList) && forall v :: v in old(simplifyList) ==> f <= v
      ensures stack == [f] + old(stack) && selected == old(selected) + {f} && coalesced == old(coalesced)
      ensures f < |firstout| && f !in old(selected) && f !in coalesced
      ensures firstout == old(firstout) && alias == old(alias) && merged == old(merged) && hard == old(hard)
      ensures spilled == old(spilled)
      ensures degree == old(degree)[f := |Adjacent(old(W()), f)|] && degree[f] == old(conflicts)[f]
      ensures conflicts == LessOne(old(conflicts), Adjacent(old(W()), f))
      ensures L() == Dropped(F(), old(L()).(simplify := old(simplifyList) - {f}), old(conflicts), Adjacent(old(W()), f))
      ensures moves == old(moves) && mvActive + mvWorklist == old(mvActive + mvWorklist)
      ensures mvActive ==
              old(mvActive) - MovesOf(moves, Woken(F(), Pushed(old(W()), f), old(conflicts), Adjacent(old(W()), f)))
    {
      hide *;
      ghost var w := W();
      Facts();
      LIs();
      f := FirstSetBit(simplifyList);
      PushNode(f);
      LiveIs(w, f);
      LIs();
      LowerNeighbours(f, w);
    }

    /** The live neighbours of a node that has just been pushed lose it. */
    method LowerNeighbours(f: nat, ghost w: View)
      requires Sized() && Coherent(W()) && DegreesHold(W(), degree) && Listing(W(), {}, {}) && Colorless()
      requires Shape(w) && Counted(w, conflicts) && W() == Pushed(w, f)
      requires f < |w.arcs| && f !in w.stack && f !in w.merged && firstout == w.arcs
      requires firstin == firstout && selected == Elems(stack) && coalesced == Elems(merged)
      modifies this`conflicts, this`spillList, this`freezeList, this`simplifyList, this`mvActive, this`mvWorklist
      ensures Valid() && Listing(W(), {}, {}) && conflicts == LessOne(old(conflicts), Adjacent(w, f))
      ensures L() == Dropped(F(), old(L()), old(conflicts), Adjacent(w, f))
      ensures mvActive + mvWorklist == old(mvActive + mvWorklist)
      ensures mvActive == old(mvActive) - MovesOf(moves, Woken(F(), Pushed(w, f), old(conflicts), Adjacent(w, f)))
    {
      hide *;
      ghost var before := conflicts;
      WIs();
      ArcsOf(w);
      PushedIs(w, f);
      PushShape(w, f);
      LiveAmong(Pushed(w, f), f);
      LiveNeighbours(w, f);
      var nodes := AdjacentOf(f);
      DropAll(nodes, W());
      LessOneLength(before, nodes);
      PushCounts(w, f, before, conflicts);
      MakeValid();
    }

    /** The node goes from the list to the stack. */
    method PushNode(f: nat)
      requires Valid() && Listing(W(), {}, {}) && f in simplifyList
      modifies this`simplifyList, this`stack, this`selected, this`degree
      ensures W() == Pushed(old(W()), f) && stack == [f] + old(stack) && simplifyList == old(simplifyList) - {f}
      ensures f < |firstout| && f !in old(stack) && f !in merged && f !in old(selected)
      ensures selected == old(selected) + {f} == Elems(stack) && degree == old(degree)[f := |Adjacent(old(W()), f)|]
      ensures conflicts[f] == |Adjacent(old(W()), f)|
      ensures Sized() && Coherent(W()) && DegreesHold(W(), degree) && Listing(W(), {}, {})
    {
      hide *;
      ghost var w, lists := W(), L();
      Facts();
      LIs();
      ListingIs(w, {}, {});
      StackKeeps(F(), lists, w, conflicts, f);
      LiveIs(w, f);
      CountedAt(conflicts, w, f);
      PushKeeps(w, f);
      PushDegrees(w, f, degree);
      PushedIs(w, f);
      ElemsIs(stack, f);
      simplifyList := simplifyList - {f};
      degree := degree[f := |Adjacent(w, f)|];
      stack := [f] + stack;
      selected := selected + {f};
      WIs();
      StaysSized(w, f);
      LIs();
      ListingIs(W(), {}, {});
    }

    /** Every node of a set loses a neighbour. */
    method DropAll(nodes: set<nat>, ghost w: View)
      requires Sized() && Arcs(firstout) && firstin == firstout && selected == Elems(stack)
      requires coalesced == Elems(merged) && Listing(w, {}, {}) && |w.arcs| == |firstout|
      requires forall v :: v in nodes ==> Live(w, v)
      modifies this`conflicts, this`spillList, this`freezeList, this`simplifyList, this`mvActive, this`mvWorklist
      ensures conflicts == LessOne(old(conflicts), nodes) && Listing(w, {}, {}) && Sized()
      ensures L() == Dropped(F(), old(L()), old(conflicts), nodes)
      ensures mvActive + mvWorklist == old(mvActive + mvWorklist)
      ensures mvActive == old(mvActive) - MovesOf(moves, Woken(F(), W(), old(conflicts), nodes))
    {
      hide *;
      var todo := nodes;
      NothingDropped(F(), L(), conflicts);
      NoneWoken(F(), W(), conflicts);
      NoMoves(moves);
      NothingLess(conflicts);
      assert nodes - todo == {};
      while todo != {}
        invariant todo <= nodes && Sized() && conflicts == LessOne(old(conflicts), nodes - todo)
        invariant Listing(w, {}, {}) && L() == Dropped(F(), old(L()), old(conflicts), nodes - todo)
        invariant mvActive + mvWorklist == old(mvActive + mvWorklist)
        invariant mvActive == old(mvActive) - MovesOf(moves, Woken(F(), W(), old(conflicts), nodes - todo))
        decreases todo
      {
        var v :| v in todo;
        ghost var done := nodes - todo;
        todo := todo - {v};
        assert nodes - todo == done + {v};
        OneMoreLess(old(conflicts), done, v);
        LiveIs(w, v);
        SizedLengths();
        WokenMore(F(), W(), old(conflicts), conflicts, done, v, moves);
        DropLive(v, w);
        DroppedMore(F(), old(L()), old(conflicts), done, v);
      }
      assert nodes - todo == nodes;
    }

    method DropLive(v: nat, ghost w: View)
      requires Sized() && Arcs(firstout) && firstin == firstout && selected == Elems(stack)
      requires coalesced == Elems(merged) && |w.arcs| == |firstout| && Live(w, v) && Listing(w, {}, {})
      modifies this`conflicts, this`spillList, this`freezeList, this`simplifyList, this`mvActive, this`mvWorklist
      ensures Sized() && v < |old(conflicts)| && conflicts == old(conflicts)[v := old(conflicts)[v] - 1]
      ensures Listing(w, {}, {}) && L() == Decremented(F(), old(L()), old(conflicts), v)
      ensures mvActive + mvWorklist == old(mvActive + mvWorklist)
      ensures mvActive == old(mvActive) - MovesOf(moves, WokenBy(F(), W(), old(conflicts), v))
    {
      hide *;
      LiveIs(w, v);
      LIs();
      ListingIs(w, {}, {});
      RankedAt(F(), L(), w, conflicts, {}, {}, v);
      SizedAt(v);
      SkipMore(F(), L(), w, conflicts, conflicts, {}, {} + {v}, {});
      ListingIs(w, {} + {v}, {});
      DropOne(v, w, {}, {});
      ghost var none: set<nat> := {};
      assert none - {v} == none;
    }

    lemma SizedLengths()
      requires Sized()
      ensures |firstout| == |regClass| == |conflicts| == |hard| == |moves|
    {
    }

    lemma SizedAt(v: nat)
      requires Sized() && v < |firstout|
      ensures v < |regClass| == |conflicts| == |Avail()| && regClass[v] < |classes| && Avail()[v] == Count(v)
    {
    }

    /** One live node loses a neighbour; its count may be one too high before. */
    method DropOne(v: nat, ghost w: View, ghost skip: set<nat>, ghost exempt: set<nat>)
      requires Sized() && Arcs(firstout) && firstin == firstout && selected == Elems(stack)
      requires coalesced == Elems(merged) && |w.arcs| == |firstout| && Live(w, v) && v !in exempt
      requires Listing(w, skip + {v}, exempt)
      requires v < |conflicts| == |regClass| && regClass[v] < |classes|
      requires (v in spillList ==> Count(v) <= conflicts[v]) && (v in freezeList ==> conflicts[v] <= Count(v))
      modifies this`conflicts, this`spillList, this`freezeList, this`simplifyList, this`mvActive, this`mvWorklist
      ensures Sized() && conflicts == old(conflicts)[v := old(conflicts)[v] - 1] && Listing(w, skip - {v}, exempt)
      ensures |old(conflicts)| == |regClass| == |moves| && L() == Decremented(F(), old(L()), old(conflicts), v)
      ensures mvActive + mvWorklist == old(mvActive + mvWorklist)
      ensures mvActive == old(mvActive) - MovesOf(moves, WokenBy(F(), W(), old(conflicts), v))
    {
      hide Arcs, Shape, ListsOk, Decremented, MovesOf, WokenBy;
      DecrementKeeps(F(), L(), w, conflicts, skip + {v}, exempt, v);
      assert skip + {v} - {v} == skip - {v};
      DecrementDegree(v);
    }

    /** combine: b is merged into a. */
    method Combine(a: nat, b: nat)
      requires Valid() && Mergeable(W(), a, b) && b !in precolored && Listing(W(), {}, {a, b}) && simplifyList == {}
      modifies this`firstin, this`firstout, this`conflicts, this`alias, this`moves, this`merged, this`coalesced,
               this`freezeList, this`spillList, this`simplifyList, this`mvActive, this`mvWorklist
      ensures Valid() && W() == Combined(old(W()), a, b) && stack == old(stack) && |firstout| == |old(firstout)|
      ensures hard == old(hard) && degree == old(degree) && selected == old(selected)
      ensures coalesced == old(coalesced) + {b} && b !in old(coalesced) && b < |firstout|
      ensures conflicts == MergedCounts(old(W()), a, old(conflicts), Adjacent(old(W()), b))
      ensures Listing(W(), {}, {a}) && a !in simplifyList
      ensures a < |old(moves)| && b < |old(moves)| && b < |old(alias)|
      ensures L() == Remade(F(), old(L()), old(W()), old(conflicts), a, b)
      ensures mvActive + mvWorklist == old(mvActive + mvWorklist)
      ensures mvActive == old(mvActive) - Reopened(F(), moves, old(W()), old(conflicts), a, b)
    {
      hide *;
      ghost var w, before, lists := W(), conflicts, L();
      Facts();
      LIs();
      ListingIs(w, {}, {a, b});
      MergeFacts(w, a, b);
      RankedAt(F(), lists, w, before, {}, {a, b}, a);
      MergeArcs(a, b);
      SpillLess(F(), lists, Bumped(w, a, before, Adjacent(w, b)), Adjacent(w, b), a, b);
      CombinedIs(w, a, b);
      JoinedLength(w.arcs, a, Adjacent(w, b));
      CombineKeeps(w, a, b);
      CombineDegrees(w, a, b, degree);
      MergedAll(w, a, b, before);
      WIs();
      MakeValid();
      MarkedRep(w, a, b);
      MarkedViewIs(w, a, b);
      LIs();
      ListingIs(MarkedView(w, a, b), {a}, {a});
      SameReps(F(), L(), MarkedView(w, a, b), W(), conflicts, {a}, {a});
      LiveAfter(w, a, b);
      MergedGrows(w, a, before, Adjacent(w, b));
      LeaveKeeps(F(), L(), W(), conflicts, {a}, a);
      RemadeIs(F(), lists, w, before, a, b, L(), conflicts);
      ReopenedIs(F(), moves, w, before, a, b);
      LeaveFreeze(a);
      LIs();
      ListingIs(W(), {}, {a});
    }

    /** The marks and the arcs of a merge. */
    method MergeArcs(a: nat, b: nat)
      requires Valid() && Mergeable(W(), a, b) && b !in precolored && a < |firstout| && b < |firstout|
      requires Listing(W(), {}, {a, b}) && simplifyList == {}
      modifies this`firstin, this`firstout, this`conflicts, this`alias, this`moves, this`merged, this`coalesced,
               this`freezeList,
               this`spillList, this`simplifyList, this`mvActive, this`mvWorklist
      ensures Sized() && firstin == firstout == Joined(old(firstout), a, Adjacent(old(W()), b))
      ensures |conflicts| == |old(conflicts)| == |old(firstout)|
      ensures conflicts == MergedCounts(old(W()), a, old(conflicts), Adjacent(old(W()), b))
      ensures b < |old(alias)| && alias == old(alias)[b := a] && merged == old(merged) + [b]
      ensures coalesced == Elems(merged) == old(coalesced) + {b} && b !in old(coalesced)
      ensures Listing(MarkedView(old(W()), a, b), {a}, {a}) && a !in simplifyList
      ensures a < |old(moves)| && b < |old(moves)| && |moves| == |old(moves)|
      ensures L() == Dropped(F(), Marked(old(L()), a, b),
                             Bumped(old(W()), a, old(conflicts), Adjacent(old(W()), b)), Adjacent(old(W()), b))
      ensures mvActive + mvWorklist == old(mvActive + mvWorklist)
      ensures mvActive == old(mvActive) - MovesOf(moves, {b})
                          - MovesOf(moves, Woken(F(), W(), Bumped(old(W()), a, old(conflicts), Adjacent(old(W()), b)),
                                                 Adjacent(old(W()), b)))
    {
      hide *;
      ghost var w := W();
      Facts();
      MergeFacts(w, a, b);
      MergeNodes(w, a, b);
      MarkNode(a, b);
      MarkedViewIs(w, a, b);
      JoinNeighbours(a, b, w);
    }

    /** The arcs of a merge, once b is marked. */
    method JoinNeighbours(a: nat, b: nat, ghost w: View)
      requires Sized() && Arcs(firstout) && firstin == firstout && selected == Elems(stack)
                 && coalesced == Elems(merged)
      requires a < |firstout| && b < |firstout| && b < |w.alias| && |w.arcs| == |firstout|
      requires w.arcs == firstout && W() == MarkedView(w, a, b) && Adjacent(W(), b) == Adjacent(w, b)
      requires a !in Adjacent(w, b) && (forall v :: v in Adjacent(w, b) ==> v < |firstout| && Live(W(), v))
      requires Listing(MarkedView(w, a, b), {a}, {a}) && |MarkedView(w, a, b).arcs| == |firstout| && a !in simplifyList
      modifies this`firstin, this`firstout, this`conflicts, this`spillList, this`freezeList, this`simplifyList,
               this`mvActive, this`mvWorklist
      ensures Sized() && firstin == firstout == Joined(w.arcs, a, Adjacent(w, b))
      ensures conflicts == MergedCounts(w, a, old(conflicts), Adjacent(w, b)) && |conflicts| == |old(conflicts)|
      ensures Listing(MarkedView(w, a, b), {a}, {a}) && a !in simplifyList
      ensures L() == Dropped(F(), old(L()), Bumped(w, a, old(conflicts), Adjacent(w, b)), Adjacent(w, b))
      ensures mvActive + mvWorklist == old(mvActive + mvWorklist)
      ensures mvActive == old(mvActive)
                          - MovesOf(moves,
                            Woken(F(), W(), Bumped(w, a, old(conflicts), Adjacent(w, b)), Adjacent(w, b)))
    {
      hide *;
      WIs();
      SizedLengths();
      var nodes := AdjacentOf(b);
      JoinAll(a, nodes, w, MarkedView(w, a, b), View(Joined(w.arcs, a, nodes), alias, merged, stack));
      WIs();
      SizedLengths();
    }

    /** The marks alone: the lists know of the merge, the arcs do not yet. */
    method MarkNode(a: nat, b: nat)
      requires Valid() && Mergeable(W(), a, b) && b !in precolored && a < |firstout| && b < |firstout|
      requires Listing(W(), {}, {a, b}) && simplifyList == {}
      modifies this`alias, this`moves, this`merged, this`coalesced, this`freezeList, this`spillList, this`mvActive,
               this`mvWorklist
      ensures Sized() && b < |old(alias)| && alias == old(alias)[b := a] && merged == old(merged) + [b]
      ensures coalesced == Elems(merged) == old(coalesced) + {b} && b !in old(coalesced)
      ensures W() == MarkedView(old(W()), a, b) && spillList <= old(spillList) && |moves| == |old(moves)|
      ensures a < |old(moves)| && b < |old(moves)| && L() == Marked(old(L()), a, b)
      ensures Listing(W(), {a}, {a}) && mvActive + mvWorklist == old(mvActive + mvWorklist)
      ensures mvActive == old(mvActive) - MovesOf(moves, {b})
      ensures Adjacent(W(), b) == Adjacent(old(W()), b) && Live(W(), a) && forall v :: v in Adjacent(W(), b) ==>
                Live(W(), v)
    {
      hide *;
      ghost var w, lists := W(), L();
      Facts();
      LIs();
      ListingIs(w, {}, {a, b});
      MergeFacts(w, a, b);
      MergeNodes(w, a, b);
      MarkKeeps(F(), lists, w, conflicts, a, b);
      ListsApart(F(), lists, w, conflicts, {}, {a, b});
      MarkedIs(lists, w, a, b);
      MarkedViewIs(w, a, b);
      MarkedLive(w, a, b);
      MarkMerged(a, b);
      WIs();
      SameNodes(w, W(), b);
      StaysSized(w, b);
      LIs();
      SkipMore(F(), L(), W(), conflicts, conflicts, {}, {a}, {a});
      ListingIs(W(), {a}, {a});
    }

    /** The end of combine: a node of significant degree is not kept for freezing. */
    method LeaveFreeze(a: nat)
      requires Sized() && a < |conflicts|
      modifies this`freezeList, this`spillList
      ensures L() == Left(F(), old(L()), conflicts, a)
    {
      if conflicts[a] >= Count(a) && a in freezeList {
        freezeList := freezeList - {a};
        spillList := spillList + {a};
      }
    }

    /** The first part of combine: b leaves its worklist, points to a, and leaves its moves to it. */
    method MarkMerged(a: nat, b: nat)
      requires a < |moves| && b < |moves| && b < |alias|
      modifies this`freezeList, this`spillList, this`coalesced, this`merged, this`alias, this`moves, this`mvActive,
               this`mvWorklist
      ensures coalesced == old(coalesced) + {b} && merged == old(merged) + [b] && alias == old(alias)[b := a]
      ensures moves == old(moves)[a := old(moves)[a] + old(moves)[b]]
      ensures if b in old(freezeList) then freezeList == old(freezeList) - {b} && spillList == old(spillList)
              else freezeList == old(freezeList) && spillList == old(spillList) - {b}
      ensures old(mvActive !! mvWorklist) ==> mvActive !! mvWorklist
      ensures mvActive + mvWorklist == old(mvActive + mvWorklist)
      ensures mvActive == old(mvActive) - MovesOf(moves, {b})
    {
      if b in freezeList {
        freezeList := freezeList - {b};
      } else {
        spillList := spillList - {b};
      }
      coalesced := coalesced + {b};
      merged := merged + [b];
      alias := alias[b := a];
      moves := moves[a := moves[a] + moves[b]];
      EnableMoves({b});
    }

    /** The live neighbours of the merged node, one after the other. */
    method JoinAll(a: nat, nodes: set<nat>, ghost w: View, ghost lw: View, ghost last: View)
      requires Sized() && Arcs(firstout) && firstin == firstout && selected == Elems(stack)
      requires coalesced == Elems(merged)
      requires a < |firstout| && a !in nodes && firstout == w.arcs && forall v :: v in nodes ==> v < |firstout|
      requires Listing(lw, {a}, {a}) && |lw.arcs| == |firstout| && a !in simplifyList
      requires forall v :: v in nodes ==> Live(lw, v)
      requires last == View(Joined(w.arcs, a, nodes), alias, merged, stack)
      modifies this`firstin, this`firstout, this`conflicts, this`spillList, this`freezeList, this`simplifyList,
               this`mvActive, this`mvWorklist
      ensures firstin == firstout == Joined(w.arcs, a, nodes) && |firstout| == |old(firstout)|
      ensures conflicts == MergedCounts(w, a, old(conflicts), nodes) && Sized()
      ensures Listing(lw, {a}, {a}) && a !in simplifyList
      ensures L() == Dropped(F(), old(L()), Bumped(w, a, old(conflicts), nodes), nodes)
      ensures mvActive + mvWorklist == old(mvActive + mvWorklist)
      ensures mvActive ==
              old(mvActive) - MovesOf(moves, Woken(F(), last, Bumped(w, a, old(conflicts), nodes), nodes))
    {
      hide *;
      ghost var bumped := Bumped(w, a, conflicts, nodes);
      SizedLengths();
      var todo := nodes;
      NothingJoined(w, a, conflicts);
      NothingDropped(F(), L(), bumped);
      NoneWoken(F(), last, bumped);
      NoMoves(moves);
      assert nodes - todo == {};
      while todo != {}
        invariant todo <= nodes && Sized() && Arcs(firstout) && |firstout| == |old(firstout)|
        invariant firstin == firstout == Joined(w.arcs, a, nodes - todo)
        invariant conflicts == MergedCounts(w, a, old(conflicts), nodes - todo)
        invariant Listing(lw, {a}, {a}) && a !in simplifyList
        invariant L() == Dropped(F(), old(L()), bumped, nodes - todo)
        invariant mvActive + mvWorklist == old(mvActive + mvWorklist)
        invariant mvActive == old(mvActive) - MovesOf(moves, Woken(F(), last, bumped, nodes - todo))
        decreases todo
      {
        var i :| i in todo;
        ghost var done := nodes - todo;
        todo := todo - {i};
        assert nodes - todo == done + {i};
        SizedLengths();
        JoinedLength(w.arcs, a, done);
        JoinedLength(w.arcs, a, done + {i});
        JoinStep(F(), old(L()), w, a, old(conflicts), nodes, done, i, conflicts, moves, last);
        JoinNode(i, a, lw);
        WIs();
        SameWoken(F(), w, last, W(), a, done, nodes, i, old(conflicts), moves);
      }
      assert nodes - todo == nodes;
    }

    /** An arc to the merged node, and then one neighbour less. */
    method JoinNode(i: nat, a: nat, ghost lw: View)
      requires Sized() && Arcs(firstout) && firstin == firstout && selected == Elems(stack)
      requires coalesced == Elems(merged) && i < |firstout| && a < |firstout| && i != a
      requires Listing(lw, {a}, {a}) && |lw.arcs| == |firstout| && Live(lw, i)
      modifies this`firstin, this`firstout, this`conflicts, this`spillList, this`freezeList, this`simplifyList,
               this`mvActive, this`mvWorklist
      ensures Sized() && Arcs(firstout) && firstin == firstout == Joined(old(firstout), a, {i})
      ensures i < |old(conflicts)| && a < |old(conflicts)|
      ensures var joined := WithArc(old(firstout), old(conflicts), i, a);
              && conflicts == joined[i := joined[i] - 1] && L() == Decremented(F(), old(L()), joined, i)
              && mvActive == old(mvActive) - MovesOf(moves, WokenBy(F(), W(), joined, i))
      ensures Listing(lw, {a}, {a}) && simplifyList <= old(simplifyList) + {i}
      ensures mvActive + mvWorklist == old(mvActive + mvWorklist)
    {
      hide Arcs, Joined, ListsOk, Shape, Decremented, MovesOf, WokenBy;
      LiveIs(lw, i);
      RankedAt(F(), L(), lw, conflicts, {a}, {a}, i);
      ghost var before, lists := conflicts, L();
      InsertArc(i, a);
      SkipMore(F(), L(), lw, before, conflicts, {a}, {a} + {i}, {a});
      assert {a} - {i} == {a};
      DecrementedFacts(F(), L(), conflicts, i);
      DropOne(i, lw, {a}, {a});
    }

    function MoveRelated(v: nat): bool
      reads this
      requires v < |moves|
    {
      NodeMoves(v) != {}
    }

    /** add_worklist. */
    method AddWorklist(v: nat)
      requires Sized() && v < |firstout|
      modifies this`freezeList, this`simplifyList
      ensures L() == Added(F(), old(L()), conflicts, v)
    {
      if v !in precolored && !MoveRelated(v) && conflicts[v] < Count(v) {
        freezeList := freezeList - {v};
        simplifyList := simplifyList + {v};
      }
    }

    /** coalesce: the first move of the worklist, between what its ends stand for. */
    method Coalesce() returns (mv: nat)
      requires Valid() && Listing(W(), {}, {}) && simplifyList == {} && mvWorklist != {}
      modifies this
      ensures mv in old(mvWorklist) && forall m :: m in old(mvWorklist) ==> mv <= m
      ensures Valid() && Listing(W(), {}, {}) && stack == old(stack) && selected == old(selected)
      ensures hard == old(hard) && degree == old(degree) && spilled == old(spilled)
      ensures |firstout| == |old(firstout)| && ArcsGrow(old(firstout), firstout)
      ensures mv in ends && Between(old(W()), ends[mv])
      ensures Clean(F(), old(L())) ==> Clean(F(), L())
      ensures var (src, dst) := Turned(old(W()), precolored, ends[mv]);
              && Decided(F(), old(moves), old(W()), old(conflicts), src, dst, mv, W(), old(Sets()), Sets())
              && Relisted(F(), old(L()), old(W()), old(conflicts), src, dst, mv, L())
      ensures coalesced == old(coalesced) ==>
                && moves == old(moves) && conflicts == old(conflicts)
                && freezeList <= old(freezeList) && spillList == old(spillList) && mvWorklist == old(mvWorklist) - {mv}
      ensures coalesced != old(coalesced) ==>
                exists b :: b !in old(coalesced) && b !in selected && b < |firstout|
                  && coalesced == old(coalesced) + {b}
    {
      hide *;
      ghost var w, lists, sets := W(), L(), Sets();
      Facts();
      LIs();
      SetsAre();
      ListingIs(w, {}, {});
      mv := FirstSetBit(mvWorklist);
      CloseKeeps(F(), lists, w, conflicts, {}, mv);
      EndsLive(F(), lists, w, conflicts, mv);
      var src, dst := Ends(ends[mv].0, ends[mv].1);
      TurnedIs(w, precolored, ends[mv], src, dst);
      mvWorklist := mvWorklist - {mv};
      LIs();
      SetsAre();
      OneLess(mvActive, sets.work, mv);
      ListingIs(w, {}, {src, dst});
      Facts();
      if Clean(F(), lists) {
        CloseClean(F(), lists, w, conflicts, mv);
      }
      Decide(mv, src, dst, lists, sets);
    }

    /** The branches of coalesce. */
    method Decide(mv: nat, src: nat, dst: nat, ghost lists: Lists, ghost sets: MoveSets)
      requires Valid() && src < |firstout| && dst < |firstout| && Live(W(), src) && Live(W(), dst)
      requires dst !in precolored ==> src !in precolored
      requires Listing(W(), {}, {src, dst}) && simplifyList == {} && ListsOk(F(), lists, W(), conflicts, {}, {})
      requires Sets() == sets.(work := sets.work - {mv}) && mv in sets.work && sets.active !! sets.work
      requires L() == lists.(open := lists.open - {mv}) && lists.open == sets.active + sets.work
      requires Clean(F(), lists) ==> dst !in precolored && Clean(F(), L())
      modifies this
      ensures Valid() && Listing(W(), {}, {}) && stack == old(stack) && selected == old(selected)
      ensures hard == old(hard) && degree == old(degree) && spilled == old(spilled) && |firstout| == |old(firstout)|
      ensures Clean(F(), lists) ==> Clean(F(), L())
      ensures Decided(F(), lists.moves, old(W()), old(conflicts), src, dst, mv, W(), sets, Sets())
      ensures Relisted(F(), lists, old(W()), old(conflicts), src, dst, mv, L())
      ensures ArcsGrow(old(firstout), firstout)
      ensures coalesced == old(coalesced) ==>
                && moves == old(moves) && conflicts == old(conflicts)
                && freezeList <= old(freezeList) && spillList == old(spillList) && mvWorklist == sets.work - {mv}
      ensures coalesced != old(coalesced) ==>
                exists b :: b !in old(coalesced) && b !in selected && b < |firstout|
                  && coalesced == old(coalesced) + {b}
    {
      hide *;
      ghost var w := W();
      Facts();
      WIs();
      LIs();
      SetsAre();
      if Clean(F(), lists) {
        StepsClean(F(), L(), conflicts, dst);
        StepsClean(F(), Added(F(), L(), conflicts, dst), conflicts, src);
      }
      if src == dst {
        AlreadyOne(mv, src, dst);
        SetsAre();
      } else if src in precolored || dst in firstout[src] {
        Constrain(mv, src, dst);
        SetsAre();
      } else {
        TryMerge(mv, src, dst, lists, sets);
        SetsAre();
      }
      JudgeIs(F(), lists.moves, w, old(conflicts), src, dst, mv, W(), sets, Sets());
      RelistedIs(F(), lists, w, old(conflicts), src, dst, mv, L());
      DecidedGrows(F(), lists.moves, w, old(conflicts), src, dst, mv, W(), sets, Sets());
      WIs();
      Facts();
    }

    /** The ends are one node already. */
    method AlreadyOne(mv: nat, src: nat, dst: nat)
      requires Sized() && Listing(W(), {}, {src, dst}) && simplifyList == {} && Live(W(), dst) && dst < |firstout|
                 && src == dst
      modifies this`mvCoalesced, this`freezeList, this`simplifyList
      ensures Listing(W(), {}, {}) && mvCoalesced == old(mvCoalesced) + {mv}
                && L() == Added(F(), old(L()), conflicts, dst)
      ensures freezeList <= old(freezeList)
    {
      hide *;
      mvCoalesced := mvCoalesced + {mv};
      AddKept(dst, {src, dst});
      assert {src, dst} - {dst} == {};
    }

    /** The ends interfere, or both are precoloured. */
    method Constrain(mv: nat, src: nat, dst: nat)
      requires Sized() && Listing(W(), {}, {src, dst}) && simplifyList == {} && src != dst
      requires Live(W(), src) && Live(W(), dst) && src < |firstout| && dst < |firstout|
      modifies this`mvConstrained, this`freezeList, this`simplifyList
      ensures Listing(W(), {}, {}) && mvConstrained == old(mvConstrained) + {mv}
      ensures L() == Added(F(), Added(F(), old(L()), conflicts, dst), conflicts, src) && freezeList <= old(freezeList)
    {
      hide *;
      mvConstrained := mvConstrained + {mv};
      AddKept(dst, {src, dst});
      assert {src, dst} - {dst} == {src};
      AddKept(src, {src});
      assert {src} - {src} == {};
    }

    method AddKept(v: nat, ghost exempt: set<nat>)
      requires Sized() && v < |firstout| && Live(W(), v) && v !in simplifyList && Listing(W(), {}, exempt)
      modifies this`freezeList, this`simplifyList
      ensures L() == Added(F(), old(L()), conflicts, v) && Listing(W(), {}, exempt - {v})
      ensures freezeList <= old(freezeList) && simplifyList <= old(simplifyList) + {v}
    {
      hide *;
      ghost var lists := L();
      LIs();
      ListingIs(W(), {}, exempt);
      AddKeeps(F(), lists, W(), conflicts, exempt, v);
      AddedFacts(F(), lists, conflicts, v);
      LIs();
      AddWorklist(v);
      LIs();
      ListingIs(W(), {}, exempt - {v});
    }

    /** The last two branches of coalesce: merge src into dst if that does no harm, else
        wait. */
    method TryMerge(mv: nat, src: nat, dst: nat, ghost lists: Lists, ghost sets: MoveSets)
      requires Valid() && src < |firstout| && dst < |firstout| && src != dst && dst !in firstout[src]
      requires src !in precolored && Live(W(), src) && Live(W(), dst)
      requires Listing(W(), {}, {src, dst}) && simplifyList == {} && ListsOk(F(), lists, W(), conflicts, {}, {})
      requires Sets() == sets.(work := sets.work - {mv}) && mv in sets.work && sets.active !! sets.work
      requires L() == lists.(open := lists.open - {mv}) && lists.open == sets.active + sets.work
      requires Clean(F(), lists) ==> dst !in precolored && Clean(F(), L())
      modifies this
      ensures Valid() && Listing(W(), {}, {}) && stack == old(stack) && selected == old(selected)
      ensures hard == old(hard) && degree == old(degree) && spilled == old(spilled) && |firstout| == |old(firstout)|
      ensures Clean(F(), lists) ==> Clean(F(), L())
      ensures if (if dst in precolored then Harmless(F(), old(W()), old(conflicts), src, dst)
                  else Few(F(), old(W()), old(conflicts), src, dst))
              then Mergeable(old(W()), dst, src) && W() == Combined(old(W()), dst, src)
                   && src < |old(alias)| && dst < |lists.moves| && src < |lists.moves|
                   && Closed(sets, Sets(), mv,
                             Reopened(F(), Handed(lists.moves, dst, src), old(W()), old(conflicts), dst, src))
                   && src !in selected && src !in old(coalesced) && coalesced == old(coalesced) + {src}
                   && L() == Added(F(),
                        Remade(F(), lists.(open := lists.open - {mv}), old(W()), old(conflicts), dst, src),
                                   MergedCounts(old(W()), dst, old(conflicts), Adjacent(old(W()), src)), dst)
              else W() == old(W()) && Sets() == sets.(work := sets.work - {mv}, active := sets.active + {mv})
                   && coalesced == old(coalesced) && freezeList == old(freezeList) && spillList == old(spillList)
                   && moves == old(moves) && conflicts == old(conflicts) && L() == lists
    {
      hide *;
      Facts();
      LIs();
      SetsAre();
      ghost var w := W();
      LiveIs(w, src);
      LiveIs(w, dst);
      MoveEnds(w, src, dst);
      var now;
      if dst in precolored {
        now := Ok(src, dst);
      } else {
        now := Conservative(src, dst);
      }
      if now {
        ghost var l0, counts := L(), conflicts;
        if Clean(F(), l0) && dst !in precolored {
          RemadeClean(F(), l0, w, counts, dst, src);
          StepsClean(F(), Remade(F(), l0, w, counts, dst, src), MergedCounts(w, dst, counts, Adjacent(w, src)), dst);
        }
        MergeEnds(mv, src, dst, sets);
      } else {
        mvActive := mvActive + {mv};
        OneLess(sets.active, sets.work, mv);
        SetsAre();
        LIs();
        ListingIs(w, {}, {});
        assert W() == w;
        Facts();
      }
    }

    /** The sets of moves. */
    function Sets(): MoveSets
      reads this`mvActive, this`mvWorklist, this`mvCoalesced, this`mvConstrained
    {
      MoveSets(mvActive, mvWorklist, mvCoalesced, mvConstrained)
    }

    method MergeEnds(mv: nat, src: nat, dst: nat, ghost sets: MoveSets)
      requires Valid() && src < |firstout| && dst < |firstout| && Mergeable(W(), dst, src)
      requires src !in precolored && Listing(W(), {}, {src, dst}) && simplifyList == {}
      requires Sets() == sets.(work := sets.work - {mv}) && mv in sets.work && sets.active !! sets.work
      modifies this
      ensures Valid() && Listing(W(), {}, {}) && stack == old(stack) && selected == old(selected)
      ensures hard == old(hard) && degree == old(degree) && spilled == old(spilled) && |firstout| == |old(firstout)|
      ensures W() == Combined(old(W()), dst, src)
      ensures dst < |old(moves)| && src < |old(moves)| && src < |old(alias)|
      ensures L() == Added(F(), Remade(F(), old(L()), old(W()), old(conflicts), dst, src),
                           MergedCounts(old(W()), dst, old(conflicts), Adjacent(old(W()), src)), dst)
      ensures Closed(sets, Sets(), mv,
                     Reopened(F(), Handed(old(moves), dst, src), old(W()), old(conflicts), dst, src))
      ensures src !in old(coalesced) && coalesced == old(coalesced) + {src}
    {
      hide *;
      SetsAre();
      OneLess(sets.active, sets.work, mv);
      mvCoalesced := mvCoalesced + {mv};
      LIs();
      WIs();
      Facts();
      ghost var w, lists, counts := W(), L(), conflicts;
      CombineEnds(src, dst);
      LIs();
      RemadeMoves(F(), lists, w, counts, dst, src);
      AddKept(dst, {dst});
      assert {dst} - {dst} == {};
      SetsAre();
      ListingIs(W(), {}, {});
      ClosedNow(sets, Sets(), mv, Reopened(F(), moves, w, counts, dst, src));
    }

    /** The source of a move is merged into its destination. */
    method CombineEnds(src: nat, dst: nat)
      requires Valid() && src < |firstout| && dst < |firstout| && Mergeable(W(), dst, src)
      requires src !in precolored && Listing(W(), {}, {src, dst}) && simplifyList == {}
      modifies this`firstin, this`firstout, this`conflicts, this`alias, this`moves, this`merged, this`coalesced,
               this`freezeList, this`spillList, this`simplifyList, this`mvActive, this`mvWorklist
      ensures Valid() && Sized() && W() == Combined(old(W()), dst, src) && stack == old(stack)
      ensures hard == old(hard) && degree == old(degree) && selected == old(selected)
      ensures dst < |firstout| == |old(firstout)| && Live(W(), dst)
      ensures coalesced == old(coalesced) + {src} && src !in old(coalesced)
      ensures Listing(W(), {}, {dst}) && dst !in simplifyList
      ensures dst < |old(moves)| && src < |old(moves)| && src < |old(alias)|
      ensures L() == Remade(F(), old(L()), old(W()), old(conflicts), dst, src)
      ensures conflicts == MergedCounts(old(W()), dst, old(conflicts), Adjacent(old(W()), src))
      ensures mvActive + mvWorklist == old(mvActive + mvWorklist)
      ensures mvActive == old(mvActive) - Reopened(F(), moves, old(W()), old(conflicts), dst, src)
    {
      hide *;
      ghost var w := W();
      assert {dst, src} == {src, dst};
      ListingIs(w, {}, {src, dst});
      ListingIs(w, {}, {dst, src});
      Combine(dst, src);
      Facts();
      LiveAfter(w, dst, src);
    }

    /** What the two registers of a move stand for, a precoloured one as the destination. */
    method Ends(x: nat, y: nat) returns (src: nat, dst: nat)
      requires Shape(W()) && coalesced == Elems(merged) && x < |firstout| && y < |firstout|
      ensures src < |firstout| && dst < |firstout| && src !in merged && dst !in merged
      ensures if Rep(W(), y) in precolored then src == Rep(W(), x) && dst == Rep(W(), y)
              else src == Rep(W(), y) && dst == Rep(W(), x)
    {
      hide *;
      dst := AliasOf(x);
      src := AliasOf(y);
      if src in precolored {
        src, dst := dst, src;
      }
    }

    /** freeze_moves: the open moves of v are given up. */
    method FreezeMoves(v: nat)
      requires Shape(W()) && coalesced == Elems(merged) && Sized() && v < |firstout|
      requires Listing(W(), {}, {v}) && v in simplifyList && mvWorklist == {}
      modifies this`mvActive, this`mvFrozen, this`freezeList, this`simplifyList
      ensures Listing(W(), {}, {}) && mvFrozen == old(mvFrozen) + old(mvActive) * moves[v]
      ensures Frosted(F(), old(L()), W(), conflicts, v, old(mvActive) * moves[v], L())
    {
      hide *;
      LIs();
      ListingIs(W(), {}, {v});
      SizedAt(v);
      ListsApart(F(), L(), W(), conflicts, {}, {v});
      FrostStart(F(), L(), W(), conflicts, v);
      var todo := NodeMoves(v);
      NodeMovesAre(v);
      ghost var nodes, done: set<nat> := todo, {};
      while todo != {}
        invariant Sized() && Listing(W(), {}, {v}) && todo <= nodes && done == nodes - todo
        invariant mvActive == old(mvActive) - done && mvFrozen == old(mvFrozen) + done && mvWorklist == {}
        invariant Frosted(F(), old(L()), W(), conflicts, v, done, L())
        decreases todo
      {
        var m :| m in todo;
        todo := todo - {m};
        FreezeMove(v, m, old(L()), done);
        done := done + {m};
      }
      assert done == nodes;
      FrostFacts(F(), old(L()), W(), conflicts, v, done, L());
      LIs();
      ListingIs(W(), {}, {v});
      NodeMovesAre(v);
      NoneOpen(L(), v);
      ReleaseDone(F(), L(), W(), conflicts, v);
      ListingIs(W(), {}, {});
    }

    lemma NodeMovesAre(v: nat)
      requires v < |moves|
      ensures NodeMoves(v) == (mvActive + mvWorklist) * moves[v]
      ensures mvWorklist == {} ==> NodeMoves(v) == mvActive * moves[v]
    {
    }

    method FreezeMove(v: nat, m: nat, ghost l0: Lists, ghost done: set<nat>)
      requires Shape(W()) && coalesced == Elems(merged) && Sized() && v < |firstout|
      requires Listing(W(), {}, {v}) && mvWorklist == {} && v < |moves| && m in mvActive && m in moves[v]
      requires Frosted(F(), l0, W(), conflicts, v, done, L())
      modifies this`mvActive, this`mvFrozen, this`freezeList, this`simplifyList
      ensures Listing(W(), {}, {v}) && mvActive == old(mvActive) - {m} && mvFrozen == old(mvFrozen) + {m}
      ensures Frosted(F(), l0, W(), conflicts, v, done + {m}, L())
    {
      hide *;
      ghost var lists := L();
      LIs();
      WIs();
      ListingIs(W(), {}, {v});
      FrostFacts(F(), l0, W(), conflicts, v, done, lists);
      OpenEnds(F(), lists, W(), conflicts, v, m);
      OtherIs(F(), W(), v, m);
      var src := AliasOf(ends[m].1);
      var u := AliasOf(v);
      var x := src;
      if u == src {
        x := AliasOf(ends[m].0);
      }
      FreezeKeeps(F(), lists, W(), conflicts, v, m, x);
      FrostStep(F(), l0, W(), conflicts, v, done, lists, m);
      mvActive := mvActive - {m};
      mvFrozen := mvFrozen + {m};
      assert mvActive + mvWorklist == lists.open - {m};
      LIs();
      ThawList(x);
      LIs();
      ListingIs(W(), {}, {v});
    }

    /** The other end of a frozen move may be simplified now; precoloured nodes are not left
        out. */
    method ThawList(x: nat)
      requires Sized() && x < |firstout|
      modifies this`freezeList, this`simplifyList
      ensures L() == Thawed(F(), old(L()), conflicts, x)
    {
      if NodeMoves(x) == {} && conflicts[x] < Count(x) {
        freezeList := freezeList - {x};
        simplifyList := simplifyList + {x};
      }
    }

    /** freeze: the first node of the list is simplified although it has open moves. */
    method Freeze() returns (f: nat)
      requires Valid() && Listing(W(), {}, {}) && freezeList != {} && mvWorklist == {}
      modifies this`mvActive, this`mvFrozen, this`freezeList, this`spillList, this`simplifyList
      ensures f in old(freezeList) && forall v :: v in old(freezeList) ==> f <= v
      ensures Valid() && Listing(W(), {}, {}) && f < |moves| && freezeList <= old(freezeList) - {f}
      ensures spillList == old(spillList) - {f}
      ensures Frosted(F(), Released(old(L()), f), W(), conflicts, f, old(mvActive) * moves[f], L())
      ensures Clean(F(), old(L())) ==> Clean(F(), L())
    {
      hide *;
      f := FirstSetBit(freezeList);
      Release(f);
    }

    /** select_spill: the cheapest node of the spill list is simplified in the hope that it
        will find a colour after all. */
    method SpillOne(costs: seq<MpInt.Mp>, orig: seq<int>) returns (f: nat)
      requires Valid() && Listing(W(), {}, {}) && spillList != {} && mvWorklist == {}
      requires |costs| == |orig| == |firstout| && forall i :: 0 <= i < |costs| ==> costs[i].Valid()
      modifies this`mvActive, this`mvFrozen, this`freezeList, this`spillList, this`simplifyList
      ensures f in old(spillList) && f < |costs|
      ensures (exists i :: i in old(spillList) && SpillCost.Spillable(orig, i)) ==>
                && SpillCost.Spillable(orig, f)
                && forall i :: i in old(spillList) && SpillCost.Spillable(orig, i) && i < |costs| ==>
                     SpillCost.Preferred(costs[f], costs[i], f <= i)
      ensures !(exists i :: i in old(spillList) && SpillCost.Spillable(orig, i)) ==>
                forall i :: i in old(spillList) ==> f <= i
      ensures Valid() && Listing(W(), {}, {}) && f < |moves| && freezeList <= old(freezeList) - {f}
      ensures spillList == old(spillList) - {f}
      ensures Frosted(F(), Released(old(L()), f), W(), conflicts, f, old(mvActive) * moves[f], L())
      ensures Clean(F(), old(L())) ==> Clean(F(), L())
    {
      hide *;
      Facts();
      LIs();
      WIs();
      ListingIs(W(), {}, {});
      SpillInRange(F(), L(), W(), conflicts);
      f := SpillCost.SelectSpill(spillList, costs, orig);
      Release(f);
    }

    /** A node of the freeze or the spill list is to be simplified, and gives up its moves. */
    method Release(f: nat)
      requires Valid() && Listing(W(), {}, {}) && mvWorklist == {} && (f in freezeList || f in spillList)
      modifies this`mvActive, this`mvFrozen, this`freezeList, this`spillList, this`simplifyList
      ensures Valid() && Listing(W(), {}, {}) && f < |moves|
      ensures freezeList <= old(freezeList) - {f} && spillList == old(spillList) - {f}
      ensures Frosted(F(), Released(old(L()), f), W(), conflicts, f, old(mvActive) * moves[f], L())
      ensures Clean(F(), old(L())) ==> Clean(F(), L())
    {
      hide *;
      ghost var lists := L();
      Facts();
      LIs();
      ListingIs(W(), {}, {});
      ListOf(f);
      LIs();
      ghost var released := L();
      FreezeMoves(f);
      FrostFacts(F(), released, W(), conflicts, f, old(mvActive) * moves[f], L());
      assert lists.open == old(mvActive);
      if Clean(F(), lists) {
        FrostedClean(F(), lists, W(), conflicts, f, L());
      }
      LIs();
    }

    /** From its list to the list of nodes to be simplified. */
    method ListOf(f: nat)
      requires Valid() && Listing(W(), {}, {}) && (f in freezeList || f in spillList)
      modifies this`freezeList, this`spillList, this`simplifyList
      ensures Valid() && Listing(W(), {}, {f}) && f < |firstout| && f in simplifyList
      ensures freezeList == old(freezeList) - {f} && spillList == old(spillList) - {f}
      ensures L() == Released(old(L()), f)
    {
      hide *;
      Facts();
      LIs();
      WIs();
      ghost var lists := L();
      ListingIs(W(), {}, {});
      ReleaseKeeps(F(), lists, W(), conflicts, f);
      ReleasedIs(lists, f);
      LiveIs(W(), f);
      freezeList := freezeList - {f};
      spillList := spillList - {f};
      simplifyList := simplifyList + {f};
      LIs();
      ListingIs(W(), {}, {f});
    }

    // ---------- the driver ----------

    /** The moves of build_i_graph: both ends know of each, and it is to be coalesced. */
    method BuildMoves()
      requires Valid() && mvWorklist == mvActive == {} && forall v :: 0 <= v < |moves| ==> moves[v] == {}
      requires forall m :: m in ends ==> ends[m].0 < |regClass| && ends[m].1 < |regClass|
      modifies this`moves, this`mvWorklist
      ensures Valid() && mvWorklist == ends.Keys && MovesBuilt(F(), L(), |regClass|)
    {
      hide *;
      Facts();
      WIs();
      JoinMoves();
      SameSized(W());
      MakeValid();
    }

    method JoinMoves()
      requires mvWorklist == mvActive == {} && |moves| == |regClass| && forall v :: 0 <= v < |moves| ==> moves[v] == {}
      requires forall m :: m in ends ==> ends[m].0 < |regClass| && ends[m].1 < |regClass|
      modifies this`moves, this`mvWorklist
      ensures mvWorklist == ends.Keys && |moves| == |regClass| && MovesBuilt(F(), L(), |regClass|)
    {
      var todo := ends.Keys;
      while todo != {}
        invariant todo <= ends.Keys && mvWorklist == ends.Keys - todo && |moves| == |regClass|
        invariant forall v: nat, m :: v < |moves| ==>
                    (m in moves[v] <==> m in mvWorklist && (v == ends[m].0 || v == ends[m].1))
        decreases todo
      {
        var m :| m in todo;
        todo := todo - {m};
        moves := moves[ends[m].0 := moves[ends[m].0] + {m}];
        moves := moves[ends[m].1 := moves[ends[m].1] + {m}];
        mvWorklist := mvWorklist + {m};
      }
      assert mvWorklist == ends.Keys;
      assert mvActive + mvWorklist == mvWorklist;
    }

    /** build_worklists. */
    method BuildWorklists()
      requires Valid() && stack == [] && merged == [] && mvActive == {}
      requires simplifyList == freezeList == spillList == {} && MovesBuilt(F(), L(), |firstout|)
      modifies this`simplifyList, this`freezeList, this`spillList
      ensures Valid() && Listing(W(), {}, {}) && Sorted(F(), L(), conflicts, |firstout|)
      ensures Clean(F(), old(L())) ==> Clean(F(), L())
    {
      hide *;
      Facts();
      WIs();
      LIs();
      var i := 0;
      BuildStart(F(), L(), W(), conflicts);
      while i < |firstout|
        invariant 0 <= i <= |firstout| && Valid() && mvActive == {} && Building(F(), L(), W(), conflicts, i)
        invariant Clean(F(), old(L())) ==> Clean(F(), L())
      {
        Facts();
        WIs();
        LIs();
        BuildStep(F(), L(), W(), conflicts, i);
        if Clean(F(), L()) && i !in precolored {
          StepsClean(F(), L(), conflicts, i);
        }
        PlaceNode(i);
        i := i + 1;
      }
      Facts();
      WIs();
      LIs();
      BuildDone(F(), L(), W(), conflicts);
      ListingIs(W(), {}, {});
    }

    method PlaceNode(i: nat)
      requires Valid() && stack == [] && merged == [] && i < |firstout|
      modifies this`simplifyList, this`freezeList, this`spillList
      ensures Valid() && L() == if i in precolored then old(L()) else Placed(F(), old(L()), conflicts, i)
    {
      hide *;
      Facts();
      WIs();
      LIs();
      AllAdjacent(W());
      CountedAt(conflicts, W(), i);
      SizedAt(i);
      NodeMovesAre(i);
      NoneOpen(L(), i);
      PlacedIs(F(), L(), conflicts, i);
      if i !in precolored {
        if |firstin[i]| >= Count(i) {
          spillList := spillList + {i};
        } else if NodeMoves(i) != {} {
          freezeList := freezeList + {i};
        } else {
          simplifyList := simplifyList + {i};
        }
      }
      LIs();
      Facts();
    }

    ghost function Snap(): Snapshot
      reads this
    {
      Snapshot(W(), L(), conflicts, Sets())
    }

    lemma SnapIs()
      ensures Snap() == Snapshot(W(), L(), conflicts, MoveSets(mvActive, mvWorklist, mvCoalesced, mvConstrained))
      ensures Snap().sets == Sets() && L().open == mvActive + mvWorklist
      ensures L().simplify == simplifyList && L().freeze == freezeList && L().spill == spillList && L().moves == moves
    {
    }

    /** One round of the loop of ra_colorize_graph. */
    method Round(costs: seq<MpInt.Mp>, orig: seq<int>, ghost cost: seq<nat>) returns (ghost pick: Pick)
      requires Valid() && Listing(W(), {}, {})
      requires |costs| == |orig| == |firstout| && SpillCost.Holds(costs, cost)
      modifies this
      ensures Valid() && Listing(W(), {}, {}) && hard == old(hard) && spilled == old(spilled)
      ensures |firstout| == |old(firstout)| && ArcsGrow(old(firstout), firstout)
      ensures Clean(F(), old(L())) && precolored !! old(selected) ==> Clean(F(), L()) && precolored !! selected
      ensures Stepped(F(), orig, cost, old(Snap()), pick, Snap())
      ensures pick == Nothing || Nearer(old(Open()), Open())
    {
      hide *;
      GrowSelf(firstout);
      Facts();
      LIs();
      WIs();
      SnapIs();
      OpenIs();
      ghost var s, was := Snap(), Open();
      if simplifyList != {} {
        ghost var lists, counts, w := L(), conflicts, W();
        var f := Simplify();
        WIs();
        SetsAre();
        PushedIs(w, f);
        if Clean(F(), lists) {
          DroppedClean(F(), lists, f, counts, Adjacent(w, f));
        }
        pick := Simplified(f);
        SnapIs();
        SimplifiedIs(F(), orig, cost, s, f, Snap());
        OpenIs();
        NodeLess(was, Open(), f);
      } else if mvWorklist != {} {
        var mv := Coalesce();
        pick := Coalesced(mv);
        SnapIs();
        CoalescedIs(F(), orig, cost, s, mv, Snap());
        OpenIs();
        if coalesced != old(coalesced) {
          ghost var b :| b !in old(coalesced) && b !in selected && b < |firstout| && coalesced == old(coalesced) + {b};
          NodeLess(was, Open(), b);
        } else {
          MoveLess(was, Open(), mv);
        }
      } else if freezeList != {} {
        var f := Freeze();
        pick := Frozen(f);
        SnapIs();
        FrozenIs(F(), orig, cost, s, f, Snap());
        OpenIs();
        ListLess(was, Open(), f);
      } else if spillList != {} {
        HoldsIs(costs, cost);
        var f := SpillOne(costs, orig);
        CheapestIs(costs, cost, orig, s.l.spill, f);
        pick := Spilled(f);
        SnapIs();
        SpilledIs(F(), orig, cost, s, f, Snap());
        OpenIs();
        ListLess(was, Open(), f);
      } else {
        pick := Nothing;
        NothingIs(F(), orig, cost, s);
      }
    }
    ghost function Open(): Todo
      reads this`firstout, this`selected, this`coalesced, this`freezeList, this`spillList, this`mvWorklist
    {
      Todo(Below(|firstout|) - selected - coalesced, freezeList + spillList, mvWorklist)
    }

    lemma OpenIs()
      ensures Open() == Todo(Below(|firstout|) - selected - coalesced, freezeList + spillList, mvWorklist)
      ensures forall v: nat :: v in Below(|firstout|) <==> v < |firstout|
    {
    }

    /** The loop of ra_colorize_graph: it ends, and then every node that is not precoloured is
        stacked or merged. */
    method Reduce(costs: seq<MpInt.Mp>, orig: seq<int>, ghost cost: seq<nat>)
      returns (ghost run: seq<Snapshot>, ghost picks: seq<Pick>)
      requires Valid() && Listing(W(), {}, {})
      requires |costs| == |orig| == |firstout| && SpillCost.Holds(costs, cost)
      modifies this
      ensures Valid() && simplifyList == freezeList == spillList == mvWorklist == {}
      ensures hard == old(hard) && spilled == old(spilled) && ArcsGrow(old(firstout), firstout)
      ensures forall v: nat :: v < |firstout| ==> v in precolored || v in stack || v in merged
      ensures Clean(F(), old(L())) && precolored !! old(selected) ==> precolored !! selected
      ensures |run| == |picks| + 1 && Rounds(F(), orig, cost, run, picks)
      ensures run[0] == old(Snap()) && run[|picks|] == Snap()
    {
      hide *;
      GrowSelf(firstout);
      Facts();
      run, picks := [Snap()], [];
      NoRounds(F(), orig, cost, Snap());
      while true
        invariant Valid() && Listing(W(), {}, {}) && |firstout| == |old(firstout)|
        invariant SpillCost.Holds(costs, cost)
        invariant hard == old(hard) && spilled == old(spilled) && ArcsGrow(old(firstout), firstout)
        invariant Clean(F(), old(L())) && precolored !! old(selected) ==> Clean(F(), L()) && precolored !! selected
        invariant Rounds(F(), orig, cost, run, picks) && |run| == |picks| + 1
        invariant run[0] == old(Snap()) && run[|picks|] == Snap()
        decreases Open().live, Open().waiting, Open().moves
      {
        ghost var arcs, was := firstout, Open();
        ghost var pick := Round(costs, orig, cost);
        GrowTwice(old(firstout), arcs, firstout);
        OneRound(F(), orig, cost, run, picks, pick, Snap());
        run, picks := run + [Snap()], picks + [pick];
        if simplifyList == {} && mvWorklist == {} && freezeList == {} && spillList == {} {
          break;
        }
        SnapIs();
        NothingLeft(F(), orig, cost, run[|picks| - 1], pick, Snap());
        NearerIs(was, Open());
      }
      LIs();
      WIs();
      ListingIs(W(), {}, {});
      NoneLeft(F(), L(), W(), conflicts);
    }

    /** ok: every live neighbour of the target is harmless for the source. */
    method Ok(target: nat, source: nat) returns (r: bool)
      requires Valid() && target < |firstout|
      ensures r <==> Harmless(F(), W(), conflicts, target, source)
    {
      hide Coherent, DegreesHold, Counted;
      ShapeOf(W());
      ArcsOf(W());
      var todo := AdjacentOf(target);
      ghost var nodes := todo;
      r := true;
      while todo != {} && r
        invariant todo <= nodes
        invariant r ==> forall i :: i in nodes - todo ==>
                    i < |firstout| && (conflicts[i] < Count(i) || i in precolored || source in firstout[i])
        invariant !r ==>
                    exists i :: i in nodes && i < |firstout|
                      && !(conflicts[i] < Count(i) || i in precolored || source in firstout[i])
        decreases todo
      {
        var i :| i in todo;
        todo := todo - {i};
        assert i in firstout[target];
        if !(conflicts[i] < Count(i) || i in precolored || source in firstout[i]) {
          r := false;
        }
      }
    }

    /** conservative: fewer than `available` neighbours of significant degree. */
    method Conservative(v: nat, u: nat) returns (r: bool)
      requires Valid() && v < |firstout| && u < |firstout|
      ensures r <==> Few(F(), W(), conflicts, v, u)
    {
      hide Coherent, DegreesHold, Counted;
      ShapeOf(W());
      ArcsOf(W());
      var nodes1 := AdjacentOf(v);
      var nodes2 := AdjacentOf(u);
      var avail, count := Count(v), 0;
      var todo := nodes1 + nodes2;
      ghost var nodes := todo;
      assert Significant(W(), conflicts, nodes - todo, avail) == {};
      while todo != {}
        invariant todo <= nodes && count == |Significant(W(), conflicts, nodes - todo, avail)|
        decreases todo
      {
        var i :| i in todo;
        ghost var seen := Significant(W(), conflicts, nodes - todo, avail);
        todo := todo - {i};
        assert i in firstout[v] || i in firstout[u];
        if conflicts[i] >= avail {
          assert Significant(W(), conflicts, nodes - todo, avail) == seen + {i};
          count := count + 1;
        } else {
          assert Significant(W(), conflicts, nodes - todo, avail) == seen;
        }
      }
      assert nodes - todo == nodes;
      r := count < avail;
    }

    /** The colours of v's class that no neighbour, by its alias, has. */
    method FreeColors(v: nat, ghost w: View, ghost k: nat, ghost loose: set<nat>) returns (free: set<nat>)
      requires Shape(w) && Shape(W()) && coalesced == Elems(merged) && firstout == w.arcs && alias == w.alias
      requires merged == w.merged
      requires k < |w.stack| && w.stack[k] == v && v < |firstout| == |hard| == |regClass| && regClass[v] < |classes|
      requires forall i :: k <= i < |w.stack| ==>
                 w.stack[i] < |hard| && (w.stack[i] !in loose ==> hard[w.stack[i]] == NO_COLOR)
      requires forall u :: 0 <= u < |hard| ==> hard[u] >= NO_COLOR
      ensures forall c :: c in free <==> c in classes[regClass[v]] && !Met(w, hard, v, c)
      ensures |classes[regClass[v]]| <= |free| + |Above(w, v)| + |Near(w, v, loose)|
    {
      hide Shape, Deeper, Above, Near;
      ShapeFacts(w);
      var avail := classes[regClass[v]];
      free := avail;
      var todo := firstout[v];
      ghost var taken: set<nat> := {};
      while todo != {}
        invariant todo <= firstout[v] && free <= avail
        invariant forall c :: c in avail ==> (c in free <==> c !in taken)
        invariant forall c :: c in taken ==> Met(w, hard, v, c)
        invariant forall z: nat :: z in firstout[v] - todo && z < |w.arcs| ==>
                    hard[Rep(w, z)] == NO_COLOR || hard[Rep(w, z)] in taken
        decreases todo
      {
        var i :| i in todo;
        todo := todo - {i};
        ArcInRange(w, v, i);
        var r := AliasOf(i);
        RepSameMerges(w, W(), i);
        if hard[r] != NO_COLOR {
          var c: nat := hard[r];
          free := free - {c};
          taken := taken + {c};
        }
      }
      TakenFromAbove(w, hard, k, taken, loose);
      CountFree(avail, free, taken);
    }

    ghost function Given(): Setup
      reads this`firstout, this`alias, this`merged, this`stack, this`degree
    {
      Setup(W(), classes, regClass, precolored, degree)
    }

    /** assign_colors: empty the stack; a node for which no colour is left is spilled, and
        it is fatal when that node must not be spilled. A node that has a colour keeps it. */
    method AssignColors(unspillable: set<nat>) returns (ok: bool)
      requires Valid() && spilled == {} && forall v: nat :: v < |hard| ==> v in precolored || v in stack || v in merged
      modifies this
      ensures ok ==> stack == [] && firstout == old(firstout)
      ensures ok ==> Colored(old(Given()), old(hard), hard, spilled) && spilled !! unspillable
      ensures !ok ==> exists v :: v in unspillable && MayFail(old(Given()), v)
    {
      hide *;
      Facts();
      WIs();
      ghost var t, hard0 := Given(), hard;
      StartAssigning();
      ghost var k := 0;
      while stack != []
        invariant k <= |t.w.stack| && stack == t.w.stack[k..]
        invariant firstout == t.w.arcs && alias == t.w.alias && merged == t.w.merged && coalesced == Elems(merged)
        invariant Assigning(t, k, hard0, hard, spilled) && spilled !! unspillable
        decreases |stack|
      {
        SuffixFacts(t, k, hard0, hard, spilled);
        var v := stack[0];
        stack := stack[1..];
        selected := selected - {v};
        WIs();
        var free := FreeColors(v, t.w, k, Loose(t));
        if hard[v] == NO_COLOR && free == {} {
          PicksNone(t, k, hard);
          Fails(t, k);
          PopStep(t, k, hard0, hard, spilled, NO_COLOR);
          assert hard[v := NO_COLOR] == hard;
          if v in unspillable {
            return false;
          }
          spilled := spilled + {v};
        } else if hard[v] == NO_COLOR {
          var c := FirstSetBit(free);
          PicksFirst(t, k, hard, c, free);
          PopStep(t, k, hard0, hard, spilled, c);
          hard := hard[v := c];
        } else {
          OldColor(t, k, hard0, hard, spilled);
        }
        k := k + 1;
      }
      AllAssigned(t, k, hard0, hard, spilled);
      WIs();
      CopyToMerged(t);
      ok := true;
    }

    /** The last loop of assign_colors: merged nodes get the colours of their aliases. */
    method CopyToMerged(ghost t: Setup)
      requires Coherent(t.w) && Shape(t.w) && Shape(W()) && firstout == t.w.arcs && alias == t.w.alias
      requires merged == t.w.merged
      requires coalesced == Elems(merged) && |hard| == |t.w.arcs|
      modifies this`hard
      ensures hard == WithMerged(t.w, old(hard))
    {
      hide Coherent, Shape, Rep;
      ShapeOf(t.w);
      ShapeFacts(t.w);
      var todo := coalesced;
      while todo != {}
        invariant todo <= coalesced && |hard| == |old(hard)|
        invariant forall v :: 0 <= v < |hard| ==>
                    hard[v] == if v in coalesced - todo then WithMerged(t.w, old(hard))[v] else old(hard)[v]
        decreases todo
      {
        var v :| v in todo;
        todo := todo - {v};
        var r := AliasOf(v);
        RepSameMerges(t.w, W(), v);
        hard := hard[v := hard[r]];
      }
      assert hard == WithMerged(t.w, old(hard));
    }

    /** Everything before the loop: the arcs, the moves, the worklists. */
    method Prepare(pairs: seq<(nat, nat)>)
      requires Valid() && stack == [] && merged == [] && (forall v :: 0 <= v < |moves| ==> moves[v] == {})
      requires simplifyList == freezeList == spillList == mvActive == mvWorklist == {}
      requires forall k :: 0 <= k < |pairs| ==> pairs[k].0 < |regClass| && pairs[k].1 < |regClass|
      requires forall m :: m in ends ==> ends[m].0 < |regClass| && ends[m].1 < |regClass|
      modifies this`firstin, this`firstout, this`conflicts, this`moves, this`mvWorklist, this`simplifyList,
               this`freezeList, this`spillList
      ensures Valid() && Listing(W(), {}, {}) && ArcsAre(old(firstout), firstout, pairs)
      ensures mvWorklist == ends.Keys && MovesBuilt(F(), L(), |regClass|) && Sorted(F(), L(), conflicts, |firstout|)
      ensures (forall m :: m in ends ==> ends[m].0 !in precolored && ends[m].1 !in precolored) ==> Clean(F(), L())
    {
      hide *;
      Facts();
      BuildArcs(pairs);
      Facts();
      BuildMoves();
      Facts();
      LIs();
      if forall m :: m in ends ==> ends[m].0 !in precolored && ends[m].1 !in precolored {
        BuiltClean(F(), L(), |regClass|);
      }
      ghost var lists := L();
      BuildWorklists();
      LIs();
      StillBuilt(F(), lists, L(), |regClass|);
    }

    /** One round of ra_colorize_graph, from the graph without arcs to the colours. `t` is the
        state in which assign_colors starts. */
    method Colorize(pairs: seq<(nat, nat)>, costs: seq<MpInt.Mp>, orig: seq<int>) returns (ok: bool, ghost t: Setup)
      requires Valid() && stack == [] && merged == [] && spilled == {}
                 && (forall v :: 0 <= v < |moves| ==> moves[v] == {})
      requires simplifyList == freezeList == spillList == mvActive == mvWorklist == {}
      requires forall k :: 0 <= k < |pairs| ==> pairs[k].0 < |regClass| && pairs[k].1 < |regClass|
      requires forall m :: m in ends ==> ends[m].0 < |regClass| && ends[m].1 < |regClass|
      requires |costs| == |orig| == |regClass| && forall i :: 0 <= i < |costs| ==> costs[i].Valid()
      modifies this
      ensures t.precolored == precolored && t.classes == classes && t.regClass == regClass
      ensures (forall m :: m in ends ==> ends[m].0 !in precolored && ends[m].1 !in precolored) ==> Loose(t) == {}
      ensures ok ==> Colored(t, old(hard), hard, spilled)
      ensures ok ==> forall k :: 0 <= k < |pairs| ==> Separate(t, hard, pairs[k].0, pairs[k].1)
      ensures ok ==> forall v: nat :: v < |hard| ==> v in precolored || v in t.w.stack || v in t.w.merged
      ensures ok ==> forall v :: v in spilled && v < |orig| ==> orig[v] != SpillCost.NEVER
      ensures !ok ==> exists v: nat :: v < |orig| && orig[v] == SpillCost.NEVER && MayFail(t, v)
    {
      hide *;
      ghost var hard0, arcs0 := hard, firstout;
      Facts();
      Prepare(pairs);
      Facts();
      ghost var arcs := firstout;
      ArcsLength(arcs0, arcs, pairs);
      ghost var run, picks := Reduce(costs, orig, Numbers(costs));
      Facts();
      t := Given();
      WIs();
      LooseIs(t);
      var unspillable := set v: nat | v < |orig| && orig[v] == SpillCost.NEVER;
      ok := AssignColors(unspillable);
      if ok {
        forall k | 0 <= k < |pairs| ensures Separate(t, hard, pairs[k].0, pairs[k].1) {
          PairSeparate(t, hard0, hard, spilled, arcs0, arcs, pairs, k);
        }
        ColoredLength(t, hard0, hard, spilled);
      }
    }

    lemma StartAssigning()
      requires Valid() && spilled == {} && forall v: nat :: v < |hard| ==> v in precolored || v in stack || v in merged
      ensures Assigning(Given(), 0, hard, hard, spilled) && stack[0..] == stack
    {
      hide Safe, Deeper, Counted, Above, Rep;
      ShapeOf(W());
      ShapeFacts(W());
      hide Shape, DegreesHold;
      assert stack[0..] == stack;
    }
  }

  lemma PairSeparate(t: Setup, hard0: seq<int>, hard: seq<int>, spilled: set<nat>, arcs0: seq<set<nat>>,
                     arcs: seq<set<nat>>, pairs: seq<(nat, nat)>, k: nat)
    requires Colored(t, hard0, hard, spilled) && ArcsAre(arcs0, arcs, pairs) && ArcsGrow(arcs, t.w.arcs)
    requires k < |pairs| && pairs[k].0 < |arcs| && pairs[k].1 < |arcs|
    ensures Separate(t, hard, pairs[k].0, pairs[k].1)
  {
    hide Colored, Separate;
    ColoredLength(t, hard0, hard, spilled);
    assert pairs[k] in pairs;
    assert pairs[k].0 != pairs[k].1 ==> pairs[k].1 in arcs[pairs[k].0];
    ArcSeparate(t, hard0, hard, spilled, pairs[k].0, pairs[k].1);
  }

  lemma LooseIs(t: Setup)
    ensures Loose(t) == t.precolored * Elems(t.w.stack) && Elems([]) == {}
  {
  }

  lemma ArcsLength(arcs0: seq<set<nat>>, arcs: seq<set<nat>>, pairs: seq<(nat, nat)>)
    requires ArcsAre(arcs0, arcs, pairs)
    ensures |arcs| == |arcs0|
  {
  }

  lemma ColoredLength(t: Setup, hard0: seq<int>, hard: seq<int>, spilled: set<nat>)
    requires Colored(t, hard0, hard, spilled)
    ensures |hard| == |hard0| == |t.w.arcs|
  {
  }

  lemma NothingJoined(w: View, a: nat, conflicts: seq<int>)
    requires a < |w.arcs|
    ensures Joined(w.arcs, a, {}) == w.arcs && MergedCounts(w, a, conflicts, {}) == conflicts
  {
    assert {} - w.arcs[a] == {} && w.arcs[a] + {} == w.arcs[a];
    forall x | 0 <= x < |w.arcs| ensures Joined(w.arcs, a, {})[x] == w.arcs[x] {
    }
  }

  lemma JoinedLength(arcs: seq<set<nat>>, a: nat, nodes: set<nat>)
    ensures |Joined(arcs, a, nodes)| == |arcs|
  {
  }

  lemma JoinedAt(arcs: seq<set<nat>>, a: nat, done: set<nat>, i: nat)
    requires a < |arcs| && i !in done
    ensures i in Joined(arcs, a, done)[a] <==> i in arcs[a]
  {
  }

  lemma MergeFacts(w: View, a: nat, b: nat)
    requires Mergeable(w, a, b)
    ensures a < |w.arcs| && b < |w.arcs| && a != b && |w.alias| == |w.arcs| && b !in w.stack && a !in w.stack
    ensures a !in w.merged && b !in w.merged
  {
  }

  lemma SameNodes(w: View, w': View, b: nat)
    requires b < |w.arcs| && w'.arcs == w.arcs && w'.stack == w.stack && w'.merged == w.merged + [b] && b !in w.arcs[b]
    ensures Adjacent(w', b) == Adjacent(w, b)
  {
    assert forall x :: x in w.merged + [b] <==> x == b || x in w.merged;
  }

  lemma MoveEnds(w: View, src: nat, dst: nat)
    requires Shape(w) && src < |w.arcs| && dst < |w.arcs| && src != dst && dst !in w.arcs[src]
    requires src !in w.merged && dst !in w.merged && src !in w.stack && dst !in w.stack
    ensures Mergeable(w, dst, src)
  {
    Symmetric(w, src, dst);
  }

  lemma PushedIs(w: View, f: nat)
    ensures Pushed(w, f) == View(w.arcs, w.alias, w.merged, [f] + w.stack)
  {
  }

  lemma CombinedIs(w: View, a: nat, b: nat)
    requires Mergeable(w, a, b)
    ensures b < |w.alias|
    ensures Combined(w, a, b) == View(Joined(w.arcs, a, Adjacent(w, b)), w.alias[b := a], w.merged + [b], w.stack)
  {
  }

  lemma LiveAfter(w: View, a: nat, b: nat)
    requires Mergeable(w, a, b)
    ensures b < |w.alias| && Live(Combined(w, a, b), a)
  {
  }

  lemma MarkedLive(w: View, a: nat, b: nat)
    requires Mergeable(w, a, b)
    ensures b < |w.alias| && Live(MarkedView(w, a, b), a) && b !in Elems(w.merged)
    ensures Elems(w.merged + [b]) == Elems(w.merged) + {b}
    ensures Adjacent(MarkedView(w, a, b), b) == Adjacent(w, b)
    ensures forall v :: v in Adjacent(w, b) ==> Live(MarkedView(w, a, b), v)
  {
    MergeNodes(w, a, b);
  }

  lemma MergedGrows(w: View, a: nat, before: seq<int>, done: set<nat>)
    requires a < |w.arcs| && a < |before|
    ensures |MergedCounts(w, a, before, done)| == |before| && MergedCounts(w, a, before, done)[a] >= before[a]
  {
  }

  lemma NothingLess(conflicts: seq<int>)
    ensures LessOne(conflicts, {}) == conflicts
  {
  }

  lemma OneMoreLess(conflicts: seq<int>, done: set<nat>, v: nat)
    requires v !in done
    ensures |LessOne(conflicts, done)| == |conflicts|
    ensures v < |conflicts| ==> LessOne(conflicts, done)[v] == conflicts[v]
    ensures v < |conflicts| ==> LessOne(conflicts, done)[v := conflicts[v] - 1] == LessOne(conflicts, done + {v})
  {
  }

  lemma LessOneLength(conflicts: seq<int>, nodes: set<nat>)
    ensures |LessOne(conflicts, nodes)| == |conflicts|
  {
  }

  lemma Symmetric(w: View, x: nat, y: nat)
    requires Shape(w) && x < |w.arcs| && y < |w.arcs| && y !in w.arcs[x]
    ensures x !in w.arcs[y]
  {
  }
}
