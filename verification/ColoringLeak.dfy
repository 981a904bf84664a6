/** A run of backend/ra-colorize.c in which a precoloured node is stacked and then shares its
    colour with a neighbour. */
module ColoringLeak {
  import opened Coloring
  import opened ColoringAssign
  import opened ColoringLists
  import opened ColoringGraph
  import opened ColoringRounds
  import MpInt
  import SpillCost

  /** Node 0 is precoloured; the first move joins it to node 1, the second joins nodes 5 and 2;
      there are two colours. */
  const ARCS: seq<set<nat>> := [{2}, {3, 4}, {0, 3}, {1, 2, 5}, {1, 5}, {3, 4}]
  const MOVES: seq<set<nat>> := [{0}, {0}, {1}, {}, {}, {1}]

  function Six(): Fixed {
    Fixed([2, 2, 2, 2, 2, 2], {0}, map[0 := (0, 1), 1 := (5, 2)])
  }

  /** What stays the same in the whole run. */
  ghost predicate Same(g: Ifg)
    reads g
  {
    && g.F() == Six() && g.precolored == {0} && g.ends == Six().ends && g.classes == [{0, 1}]
    && g.regClass == [0, 0, 0, 0, 0, 0] && g.hard == [0, -1, -1, -1, -1, -1] && g.spilled == {}
  }

  /** A state before anything is merged. */
  ghost predicate State(g: Ifg, stack: seq<nat>, conflicts: seq<int>, l: Lists, active: set<nat>, work: set<nat>)
    reads g
  {
    && g.Valid() && g.Listing(g.W(), {}, {}) && Same(g) && g.firstout == ARCS && |g.alias| == 6 && g.merged == []
    && g.stack == stack && g.conflicts == conflicts && g.L() == l && g.mvActive == active && g.mvWorklist == work
  }

  lemma StateIs(g: Ifg, stack: seq<nat>, conflicts: seq<int>, l: Lists, active: set<nat>, work: set<nat>)
    ensures State(g, stack, conflicts, l, active, work) <==>
              && g.Valid() && g.Listing(g.W(), {}, {}) && Same(g) && g.firstout == ARCS && |g.alias| == 6
              && g.merged == [] && g.stack == stack && g.conflicts == conflicts && g.L() == l && g.mvActive == active
              && g.mvWorklist == work
  {
  }

  lemma SameIs(g: Ifg)
    ensures Same(g) <==>
              && g.F() == Six() && g.precolored == {0} && g.ends == Six().ends && g.classes == [{0, 1}]
              && g.regClass == [0, 0, 0, 0, 0, 0] && g.hard == [0, -1, -1, -1, -1, -1] && g.spilled == {}
    ensures Six().ends == map[0 := (0, 1), 1 := (5, 2)] && Six().precolored == {0}
    ensures |ARCS| == |MOVES| == 6
  {
  }

  // ---------- the start ----------

  lemma StartArcs(arcs: seq<set<nat>>)
    requires ArcsAre([{}, {}, {}, {}, {}, {}], arcs, [(0, 2), (1, 3), (1, 4), (2, 3), (3, 5), (4, 5)])
    ensures arcs == ARCS
  {
    assert forall v: nat :: v < 6 ==> arcs[v] == ARCS[v];
  }

  lemma StartCounts(w: View, conflicts: seq<int>)
    requires Counted(w, conflicts) && w.arcs == ARCS && w.stack == [] && w.merged == []
    ensures conflicts == [1, 2, 2, 3, 2, 2]
  {
    hide *;
    PlainCounts(w, conflicts);
    ArcCounts();
    SixCounts(w.arcs, conflicts);
  }

  lemma SixCounts(arcs: seq<set<nat>>, conflicts: seq<int>)
    requires |arcs| == |conflicts| == 6 && forall v: nat :: v < 6 ==> conflicts[v] == |arcs[v]|
    requires |arcs[0]| == 1 && |arcs[1]| == 2 && |arcs[2]| == 2 && |arcs[3]| == 3 && |arcs[4]| == 2 && |arcs[5]| == 2
    ensures conflicts == [1, 2, 2, 3, 2, 2]
  {
  }

  lemma ArcCounts()
    ensures |ARCS| == 6
    ensures |ARCS[0]| == 1 && |ARCS[1]| == 2 && |ARCS[2]| == 2 && |ARCS[3]| == 3 && |ARCS[4]| == 2 && |ARCS[5]| == 2
  {
    Two(3, 4);
    Two(0, 3);
    Two(1, 2);
    Two(1, 5);
    assert ARCS[3] == {1, 2} + {5};
  }

  lemma Two(a: nat, b: nat)
    requires a != b
    ensures |{a, b}| == 2
  {
  }

  lemma StartMoves(l: Lists)
    requires MovesBuilt(Six(), l, 6)
    ensures l.moves == MOVES
  {
    forall v: nat | v < 6 ensures l.moves[v] == MOVES[v] {
      forall m: nat ensures m in l.moves[v] <==> m in MOVES[v] {
        BuiltAt(Six(), l, 6, v, m);
      }
    }
  }

  lemma BuiltAt(f: Fixed, l: Lists, n: nat, v: nat, m: nat)
    requires MovesBuilt(f, l, n) && v < n
    ensures v < |l.moves| && (m in l.moves[v] <==> m in f.ends && (v == f.ends[m].0 || v == f.ends[m].1))
  {
  }

  lemma StartLists(l: Lists)
    requires Sorted(Six(), l, [1, 2, 2, 3, 2, 2], 6)
    ensures l.simplify == {} && l.freeze == {} && l.spill == {1, 2, 3, 4, 5}
  {
  }

  method Alone() returns (g: Ifg)
    ensures fresh(g) && g.Valid() && g.stack == [] && g.merged == [] && g.firstout == [{}, {}, {}, {}, {}, {}]
    ensures Same(g) && g.L() == Lists({}, {}, {}, {}, [{}, {}, {}, {}, {}, {}])
  {
    hide Ifg.Valid, Coherent, DegreesHold, Counted;
    g := new Ifg([{0, 1}], [0, 0, 0, 0, 0, 0], {0}, [0, -1, -1, -1, -1, -1], Six().ends);
    assert |{0, 1}| == 2;
    assert g.Avail() == [2, 2, 2, 2, 2, 2];
    g.Facts();
    assert g.firstout == [{}, {}, {}, {}, {}, {}];
  }

  method Start() returns (g: Ifg)
    ensures fresh(g)
    ensures State(g, [], [1, 2, 2, 3, 2, 2], Lists({}, {}, {1, 2, 3, 4, 5}, {0, 1}, MOVES), {}, {0, 1})
  {
    hide *;
    g := Alone();
    SameIs(g);
    g.LIs();
    g.Prepare([(0, 2), (1, 3), (1, 4), (2, 3), (3, 5), (4, 5)]);
    StartArcs(g.firstout);
    g.Facts();
    StartCounts(g.W(), g.conflicts);
    g.LIs();
    StartMoves(g.L());
    StartLists(g.L());
    assert g.mvWorklist == {0, 1} && g.mvActive + g.mvWorklist == {0, 1};
    SameIs(g);
    StateIs(g, [], [1, 2, 2, 3, 2, 2], Lists({}, {}, {1, 2, 3, 4, 5}, {0, 1}, MOVES), {}, {0, 1});
  }

  // ---------- both moves wait ----------

  lemma BothWait(w: View)
    requires Shape(w) && w.arcs == ARCS && w.stack == [] && w.merged == []
    ensures Between(w, (0, 1)) && Turned(w, {0}, (0, 1)) == (1, 0)
    ensures Judge(Six(), w, [1, 2, 2, 3, 2, 2], 1, 0) == Waits
    ensures Between(w, (5, 2)) && Turned(w, {0}, (5, 2)) == (2, 5)
    ensures Judge(Six(), w, [1, 2, 2, 3, 2, 2], 2, 5) == Waits
  {
    assert w.arcs[1] == {3, 4} && w.arcs[2] == {0, 3} && w.arcs[5] == {3, 4} && w.arcs[3] == {1, 2, 5};
    var counts := [1, 2, 2, 3, 2, 2];
    assert 3 in Adjacent(w, 1);
    assert !Fewer(Six(), counts, 3);
    assert !Harmless(Six(), w, counts, 1, 0);
    assert Significant(w, counts, Adjacent(w, 2) + Adjacent(w, 5), 2) == {3, 4};
    assert |{3, 4}| == 2;
  }

  lemma WaitsMeans(w: View, w': View, counts: seq<int>, src: nat, dst: nat, mv: nat, s: MoveSets, s': MoveSets,
                   l: Lists,
                   l': Lists)
    requires src < |w.arcs| && Judge(Six(), w, counts, src, dst) == Waits
    requires Decided(Six(), l.moves, w, counts, src, dst, mv, w', s, s')
               && Relisted(Six(), l, w, counts, src, dst, mv, l')
    ensures w' == w && s' == s.(work := s.work - {mv}, active := s.active + {mv}) && l' == l
  {
    hide Judge;
  }

  method Wait(g: Ifg, m: nat, ghost active: set<nat>, ghost work: set<nat>, ghost active': set<nat>,
              ghost work': set<nat>)
    requires State(g, [], [1, 2, 2, 3, 2, 2], Lists({}, {}, {1, 2, 3, 4, 5}, {0, 1}, MOVES), active, work)
    requires m in work && m < 2 && forall k :: k in work ==> m <= k
    requires active' == active + {m} && work' == work - {m}
    modifies g
    ensures State(g, [], [1, 2, 2, 3, 2, 2], Lists({}, {}, {1, 2, 3, 4, 5}, {0, 1}, MOVES), active', work')
  {
    hide *;
    ghost var l := Lists({}, {}, {1, 2, 3, 4, 5}, {0, 1}, MOVES);
    StateIs(g, [], [1, 2, 2, 3, 2, 2], l, active, work);
    SameIs(g);
    g.LIs();
    g.Facts();
    g.WIs();
    g.SetsAre();
    ghost var w, sets := g.W(), g.Sets();
    BothWait(w);
    var mv := g.Coalesce();
    assert mv == m;
    if m == 0 {
      WaitsMeans(w, g.W(), [1, 2, 2, 3, 2, 2], 1, 0, m, sets, g.Sets(), l, g.L());
    } else {
      WaitsMeans(w, g.W(), [1, 2, 2, 3, 2, 2], 2, 5, m, sets, g.Sets(), l, g.L());
    }
    g.SetsAre();
    g.WIs();
    assert g.coalesced == old(g.coalesced) by {
      g.Facts();
    }
    SameIs(g);
    StateIs(g, [], [1, 2, 2, 3, 2, 2], l, active', work');
  }

  // ---------- node 1 is released ----------

  /** With its move the last one of the precoloured node is frozen, and that node is on the
      list, too. */
  lemma SpillReleases(w: View, l: Lists)
    requires Shape(w) && w.arcs == ARCS && w.stack == [] && w.merged == []
    requires Frosted(Six(), Released(Lists({}, {}, {1, 2, 3, 4, 5}, {0, 1}, MOVES), 1), w, [1, 2, 2, 3, 2, 2], 1, {0},
               l)
    ensures l == Lists({0, 1}, {}, {2, 3, 4, 5}, {1}, MOVES)
  {
    var counts := [1, 2, 2, 3, 2, 2];
    assert Between(w, (0, 1)) && Other(Six(), w, 1, 0) == 0;
    assert forall x: nat :: Partner(Six(), w, 1, {0}, x) ==> x == 0;
    assert Partner(Six(), w, 1, {0}, 0);
    assert l.open == {1} && l.moves == MOVES;
    assert l.moves[0] == {0} && l.open * l.moves[0] == {};
    assert Fewer(Six(), counts, 0);
    assert Loosened(Six(), w, counts, 1, {0}, l, 0);
    hide Loosened, Partner, Shape;
    assert l.freeze == {};
    assert l.simplify == {0, 1};
    assert l.spill == {2, 3, 4, 5};
  }

  /** All nodes cost the same. */
  method SameCosts() returns (costs: seq<MpInt.Mp>)
    ensures |costs| == 6 && forall i :: 0 <= i < 6 ==> costs[i].Valid() && costs[i].Num() == 1 && fresh(costs[i])
    ensures forall i, k :: 0 <= i < 6 && 0 <= k < 6 ==> SpillCost.Preferred(costs[i], costs[k], i <= k) == (i <= k)
  {
    var c := new MpInt.Mp(1);
    assert MpInt.Power(MpInt.BASE, 1) == MpInt.BASE;
    MpInt.SetU32(c, 1);
    costs := [c, c, c, c, c, c];
  }

  lemma AllSpillable(orig: seq<int>)
    requires orig == [0, 0, 0, 0, 0, 0]
    ensures forall i: nat :: i < 6 ==> SpillCost.Spillable(orig, i)
  {
  }

  lemma OneMove()
    ensures |MOVES| == 6 && {0, 1} * MOVES[1] == {0}
  {
  }

  method Spill(g: Ifg)
    requires State(g, [], [1, 2, 2, 3, 2, 2], Lists({}, {}, {1, 2, 3, 4, 5}, {0, 1}, MOVES), {0, 1}, {})
    modifies g
    ensures State(g, [], [1, 2, 2, 3, 2, 2], Lists({0, 1}, {}, {2, 3, 4, 5}, {1}, MOVES), {1}, {})
  {
    hide *;
    ghost var l := Lists({}, {}, {1, 2, 3, 4, 5}, {0, 1}, MOVES);
    StateIs(g, [], [1, 2, 2, 3, 2, 2], l, {0, 1}, {});
    SameIs(g);
    g.LIs();
    g.Facts();
    g.WIs();
    ghost var w := g.W();
    var costs := SameCosts();
    AllSpillable([0, 0, 0, 0, 0, 0]);
    var f := g.SpillOne(costs, [0, 0, 0, 0, 0, 0]);
    assert f == 1;
    g.LIs();
    g.Facts();
    OneMove();
    SpillReleases(w, g.L());
    SameIs(g);
    StateIs(g, [], [1, 2, 2, 3, 2, 2], Lists({0, 1}, {}, {2, 3, 4, 5}, {1}, MOVES), {1}, {});
  }

  // ---------- nodes 0, 1 and 4 are simplified ----------

  /** Pushing node 0 leaves node 2 with fewer neighbours than colours, and its move is looked
      at again. */
  lemma PushZero(w: View, l: Lists)
    requires w == View(ARCS, w.alias, [], []) && l == Lists({0, 1}, {}, {2, 3, 4, 5}, {1}, MOVES)
    ensures Adjacent(w, 0) == {2} && LessOne([1, 2, 2, 3, 2, 2], {2}) == [1, 2, 1, 3, 2, 2]
    ensures Dropped(Six(), l.(simplify := l.simplify - {0}), [1, 2, 2, 3, 2, 2], {2}) ==
            Lists({1}, {2}, {3, 4, 5}, {1}, MOVES)
    ensures 1 in MovesOf(MOVES, Woken(Six(), Pushed(w, 0), [1, 2, 2, 3, 2, 2], {2}))
  {
    var counts, m := [1, 2, 2, 3, 2, 2], l.(simplify := l.simplify - {0});
    assert 1 in m.open * m.moves[2] && Moving(m, 2);
    assert Equal(Six(), counts, 2);
    assert m.simplify == {1};
    assert 2 in WokenBy(Six(), Pushed(w, 0), counts, 2);
    assert 2 in Woken(Six(), Pushed(w, 0), counts, {2});
  }

  lemma PushOne(w: View, l: Lists)
    requires w == View(ARCS, w.alias, [], [0]) && l == Lists({1}, {2}, {3, 4, 5}, {1}, MOVES)
    ensures Adjacent(w, 1) == {3, 4} && LessOne([1, 2, 1, 3, 2, 2], {3, 4}) == [1, 2, 1, 2, 1, 2]
    ensures Dropped(Six(), l.(simplify := l.simplify - {1}), [1, 2, 1, 3, 2, 2], {3, 4}) ==
            Lists({4}, {2}, {3, 5}, {1}, MOVES)
  {
    var counts, m := [1, 2, 1, 3, 2, 2], l.(simplify := l.simplify - {1});
    assert m.open * m.moves[4] == {} && !Moving(m, 4);
    assert Equal(Six(), counts, 4) && !Equal(Six(), counts, 3);
    assert m.simplify == {};
  }

  lemma PushFour(w: View, l: Lists)
    requires w == View(ARCS, w.alias, [], [1, 0]) && l == Lists({4}, {2}, {3, 5}, {1}, MOVES)
    ensures Adjacent(w, 4) == {5} && LessOne([1, 2, 1, 2, 1, 2], {5}) == [1, 2, 1, 2, 1, 1]
    ensures Dropped(Six(), l.(simplify := l.simplify - {4}), [1, 2, 1, 2, 1, 2], {5}) ==
            Lists({}, {2, 5}, {3}, {1}, MOVES)
  {
    var counts, m := [1, 2, 1, 2, 1, 2], l.(simplify := l.simplify - {4});
    assert 1 in m.open * m.moves[5] && Moving(m, 5);
    assert Equal(Six(), counts, 5);
    assert m.simplify == {};
  }

  method PushFirst(g: Ifg)
    requires State(g, [], [1, 2, 2, 3, 2, 2], Lists({0, 1}, {}, {2, 3, 4, 5}, {1}, MOVES), {1}, {})
    modifies g
    ensures State(g, [0], [1, 2, 1, 3, 2, 2], Lists({1}, {2}, {3, 4, 5}, {1}, MOVES), {}, {1})
  {
    hide *;
    StateIs(g, [], [1, 2, 2, 3, 2, 2], Lists({0, 1}, {}, {2, 3, 4, 5}, {1}, MOVES), {1}, {});
    SameIs(g);
    g.LIs();
    g.WIs();
    PushZero(g.W(), g.L());
    var f := g.Simplify();
    assert f == 0;
    g.LIs();
    g.Facts();
    assert g.mvActive == {};
    SameIs(g);
    StateIs(g, [0], [1, 2, 1, 3, 2, 2], Lists({1}, {2}, {3, 4, 5}, {1}, MOVES), {}, {1});
  }

  method PushNext(g: Ifg)
    requires State(g, [0], [1, 2, 1, 3, 2, 2], Lists({1}, {2}, {3, 4, 5}, {1}, MOVES), {}, {1})
    modifies g
    ensures State(g, [1, 0], [1, 2, 1, 2, 1, 2], Lists({4}, {2}, {3, 5}, {1}, MOVES), {}, {1})
  {
    hide *;
    StateIs(g, [0], [1, 2, 1, 3, 2, 2], Lists({1}, {2}, {3, 4, 5}, {1}, MOVES), {}, {1});
    SameIs(g);
    g.LIs();
    g.WIs();
    PushOne(g.W(), g.L());
    var f := g.Simplify();
    assert f == 1;
    g.LIs();
    g.Facts();
    SameIs(g);
    StateIs(g, [1, 0], [1, 2, 1, 2, 1, 2], Lists({4}, {2}, {3, 5}, {1}, MOVES), {}, {1});
  }

  method PushThird(g: Ifg)
    requires State(g, [1, 0], [1, 2, 1, 2, 1, 2], Lists({4}, {2}, {3, 5}, {1}, MOVES), {}, {1})
    modifies g
    ensures State(g, [4, 1, 0], [1, 2, 1, 2, 1, 1], Lists({}, {2, 5}, {3}, {1}, MOVES), {}, {1})
  {
    hide *;
    StateIs(g, [1, 0], [1, 2, 1, 2, 1, 2], Lists({4}, {2}, {3, 5}, {1}, MOVES), {}, {1});
    SameIs(g);
    g.LIs();
    g.WIs();
    PushFour(g.W(), g.L());
    var f := g.Simplify();
    assert f == 4;
    g.LIs();
    g.Facts();
    SameIs(g);
    StateIs(g, [4, 1, 0], [1, 2, 1, 2, 1, 1], Lists({}, {2, 5}, {3}, {1}, MOVES), {}, {1});
  }

  // ---------- node 2 is merged into node 5 ----------

  /** Only node 3 speaks against it now. */
  lemma TwoJoinsFive(w: View)
    requires Shape(w) && w == View(ARCS, w.alias, [], [4, 1, 0]) && |w.alias| == 6
    ensures Between(w, (5, 2)) && Turned(w, {0}, (5, 2)) == (2, 5)
    ensures Judge(Six(), w, [1, 2, 1, 2, 1, 1], 2, 5) == Joins
    ensures Combined(w, 5, 2) == View(ARCS, w.alias[2 := 5], [2], [4, 1, 0])
  {
    OnlyThree(w);
    JoinedSame();
    assert 2 !in w.arcs[5] && 5 !in w.arcs[2];
    hide Adjacent, Few, Shape;
  }

  lemma OnlyThree(w: View)
    requires w == View(ARCS, w.alias, [], [4, 1, 0])
    ensures Adjacent(w, 2) == {3} && Adjacent(w, 5) == {3} && Few(Six(), w, [1, 2, 1, 2, 1, 1], 2, 5)
  {
    assert w.arcs[2] == {0, 3} && w.arcs[5] == {3, 4};
    hide Few;
    FewWithOne(w);
  }

  lemma FewWithOne(w: View)
    requires |w.arcs| == 6 && Adjacent(w, 2) == {3} && Adjacent(w, 5) == {3}
    ensures Few(Six(), w, [1, 2, 1, 2, 1, 1], 2, 5)
  {
    hide Adjacent;
    assert {3} + {3} == {3};
    assert Significant(w, [1, 2, 1, 2, 1, 1], {3}, 2) == {3};
    assert |{3}| == 1;
  }

  lemma JoinedSame()
    ensures Joined(ARCS, 5, {3}) == ARCS
  {
    assert {3, 4} + {3} == {3, 4} && {1, 2, 5} + {5} == {1, 2, 5};
    assert forall v: nat :: v < 6 ==> Joined(ARCS, 5, {3})[v] == ARCS[v];
  }

  lemma JoinsMeans(w: View, w': View, counts: seq<int>, s: MoveSets, s': MoveSets, l: Lists, l': Lists)
    requires 5 < |w.arcs| && Judge(Six(), w, counts, 2, 5) == Joins
    requires Decided(Six(), l.moves, w, counts, 2, 5, 1, w', s, s') && Relisted(Six(), l, w, counts, 2, 5, 1, l')
    ensures 2 < |w.alias| && w' == Combined(w, 5, 2) && l'.open == l.open - {1}
  {
    hide Judge;
  }

  /** Nodes 3 and 5 are the only ones left. */
  lemma TwoLeft(w: View)
    requires w == View(ARCS, w.alias, [2], [4, 1, 0])
    ensures |w.arcs| == 6 && forall v: nat :: Live(w, v) <==> v == 3 || v == 5
    ensures 3 !in w.stack && 3 !in w.merged && 5 !in w.stack && 5 !in w.merged
  {
  }

  lemma TwoNear(w: View)
    requires w == View(ARCS, w.alias, [2], [4, 1, 0])
    ensures Adjacent(w, 3) == {5} && Adjacent(w, 5) == {3}
  {
    assert ARCS[3] == {1, 2, 5} && ARCS[5] == {3, 4};
  }

  lemma LeftListed(l: Lists, w: View, conflicts: seq<int>)
    requires w == View(ARCS, w.alias, [2], [4, 1, 0]) && ListsOk(Six(), l, w, conflicts, {}, {})
    requires Counted(w, conflicts) && l.open == {}
    ensures l.simplify == {3, 5} && |conflicts| == 6 && conflicts[3] == 1 && conflicts[5] == 1
  {
    hide *;
    TwoLeft(w);
    TwoNear(w);
    assert |{3}| == 1 && |{5}| == 1;
    forall v: nat | v == 3 || v == 5 ensures v in l.simplify && v < |conflicts| && conflicts[v] == 1 {
      CountedAt(conflicts, w, v);
      RankedAt(Six(), l, w, conflicts, {}, {}, v);
      NoneOpen(l, v);
      FewerSix(conflicts, v);
      MustSimplify(Six(), l, w, conflicts, v);
    }
    RankedAt(Six(), l, w, conflicts, {}, {}, 3);
    forall v | v in l.simplify ensures v == 3 || v == 5 {
      LiveListed(Six(), l, w, conflicts, v);
    }
  }

  lemma FewerSix(conflicts: seq<int>, v: nat)
    requires v == 3 || v == 5
    ensures v !in Six().precolored && (|conflicts| == 6 && conflicts[v] == 1 ==> Fewer(Six(), conflicts, v))
  {
  }

  method Merge(g: Ifg)
    requires State(g, [4, 1, 0], [1, 2, 1, 2, 1, 1], Lists({}, {2, 5}, {3}, {1}, MOVES), {}, {1})
    modifies g
    ensures g.Valid() && g.Listing(g.W(), {}, {}) && Same(g) && |g.alias| == 6 && g.alias[2] == 5
    ensures g.W() == View(ARCS, g.alias, [2], [4, 1, 0])
    ensures g.simplifyList == {3, 5} && |g.conflicts| == 6 && g.conflicts[3] == 1 && g.conflicts[5] == 1
  {
    hide *;
    ghost var l := Lists({}, {2, 5}, {3}, {1}, MOVES);
    StateIs(g, [4, 1, 0], [1, 2, 1, 2, 1, 1], l, {}, {1});
    SameIs(g);
    g.LIs();
    g.Facts();
    g.WIs();
    g.SetsAre();
    ghost var w, sets := g.W(), g.Sets();
    TwoJoinsFive(w);
    var mv := g.Coalesce();
    assert mv == 1;
    JoinsMeans(w, g.W(), [1, 2, 1, 2, 1, 1], sets, g.Sets(), l, g.L());
    g.WIs();
    g.LIs();
    g.Facts();
    g.ListingIs(g.W(), {}, {});
    LeftListed(g.L(), g.W(), g.conflicts);
    SameIs(g);
  }

  // ---------- the rest of the stack and the colours ----------

  /** Node 5 has no live neighbour left when it is pushed. */
  lemma PushLast(w: View, l: Lists, conflicts: seq<int>)
    requires w == View(ARCS, w.alias, [2], [4, 1, 0]) && l.simplify == {3, 5}
    requires |conflicts| == 6 && conflicts[3] == 1 && conflicts[5] == 1
    ensures LessOne(conflicts, Adjacent(w, 3))[5] == 0 && |LessOne(conflicts, Adjacent(w, 3))| == 6
    ensures Dropped(Six(), l.(simplify := l.simplify - {3}), conflicts, Adjacent(w, 3)).simplify == {5}
  {
    assert Adjacent(w, 3) == {5};
    assert !Equal(Six(), conflicts, 5);
    assert l.simplify - {3} == {5};
  }

  /** Node 5 gets the first colour, and with it node 2, whose neighbour 0 has it. */
  lemma Clash(t: Setup, hard: seq<int>, spilled: set<nat>)
    requires t.w == View(ARCS, t.w.alias, [2], [5, 3, 4, 1, 0]) && |t.w.alias| == 6 && t.w.alias[2] == 5
    requires t.classes == [{0, 1}] && t.regClass == [0, 0, 0, 0, 0, 0] && t.precolored == {0}
    requires Colored(t, [0, -1, -1, -1, -1, -1], hard, spilled)
    ensures |hard| == 6 && hard[0] == 0 && hard[2] == 0 && 0 in t.w.stack && 2 in t.w.merged && 2 in t.w.arcs[0]
  {
    hide Differ, Kept, MayFail;
    assert t.w.stack[0] == 5 && t.w.stack[4] == 0 && t.w.merged[0] == 2;
    assert FirstFit(t, hard, 0);
    assert Rep(t.w, 2) == 5;
    assert InClass(t, 0, 0) && !TakenBefore(t, hard, 0, 0);
  }

  method Finish(g: Ifg) returns (ghost t: Setup)
    requires g.Valid() && g.Listing(g.W(), {}, {}) && Same(g) && |g.alias| == 6 && g.alias[2] == 5
    requires g.W() == View(ARCS, g.alias, [2], [4, 1, 0])
    requires g.simplifyList == {3, 5} && |g.conflicts| == 6 && g.conflicts[3] == 1 && g.conflicts[5] == 1
    modifies g
    ensures |g.hard| == 6 && g.hard[0] == 0 && g.hard[2] == 0 && t.w.arcs == g.firstout == ARCS
    ensures t.precolored == {0} && 0 in t.w.stack && 2 in t.w.merged && 2 in t.w.arcs[0]
    ensures Colored(t, [0, -1, -1, -1, -1, -1], g.hard, g.spilled)
  {
    hide *;
    SameIs(g);
    g.WIs();
    g.LIs();
    PushLast(g.W(), g.L(), g.conflicts);
    var f := g.Simplify();
    assert f == 3;
    g.LIs();
    g.WIs();
    f := g.Simplify();
    assert f == 5;
    t := g.Given();
    g.WIs();
    g.Facts();
    AllThere(g.stack, g.merged);
    var ok := g.AssignColors({});
    assert ok;
    Clash(t, g.hard, g.spilled);
  }

  lemma AllThere(stack: seq<nat>, merged: seq<nat>)
    requires stack == [5, 3, 4, 1, 0] && merged == [2]
    ensures forall v: nat :: v < 6 ==> v in stack || v in merged
  {
    assert stack[0] == 5 && stack[1] == 3 && stack[2] == 4 && stack[3] == 1 && stack[4] == 0 && merged[0] == 2;
  }

  /** The run, in the order of the driver loop: both moves wait, node 1 is chosen to be spilled
      and its move with the precoloured node 0 is frozen, which puts node 0 on the list; once
      it is on the stack it no longer counts, the other move joins nodes 2 and 5, and node 5
      gets the colour that node 0 has. */
  method TwoOfOneColour() returns (g: Ifg, ghost t: Setup)
    ensures fresh(g) && t.precolored == g.precolored == {0} && t.w.arcs == g.firstout == ARCS && |g.hard| == |ARCS|
    ensures 0 in t.w.stack && 2 in t.w.merged && Colored(t, [0, -1, -1, -1, -1, -1], g.hard, g.spilled)
    ensures 2 in t.w.arcs[0] && g.hard[0] == g.hard[2] == 0
  {
    hide *;
    g := Start();
    StateIs(g, [], [1, 2, 2, 3, 2, 2], Lists({}, {}, {1, 2, 3, 4, 5}, {0, 1}, MOVES), {}, {0, 1});
    SameIs(g);
    Wait(g, 0, {}, {0, 1}, {0}, {1});
    Wait(g, 1, {0}, {1}, {0, 1}, {});
    Spill(g);
    PushFirst(g);
    PushNext(g);
    PushThird(g);
    Merge(g);
    t := Finish(g);
    SameIs(g);
  }
}
