/** The worklists of iterated coalescing (backend/ra-colorize.c): on which list a node is, and
    why it is on one until it is stacked or merged. */
module ColoringLists {
  import opened Coloring

  /** The worklists, the moves that are still open (active or on the worklist of moves), and
      the moves in which each node takes part. */
  datatype Lists = Lists(simplify: set<nat>, freeze: set<nat>, spill: set<nat>, open: set<nat>, moves: seq<set<nat>>)

  /** What does not change: how many colours each node can have, the precoloured nodes, and
      the nodes that each move joins. */
  datatype Fixed = Fixed(avail: seq<nat>, precolored: set<nat>, ends: map<nat, (nat, nat)>)

  predicate Moving(l: Lists, v: nat) {
    v < |l.moves| && l.open * l.moves[v] != {}
  }

  /** Node v has just as many live neighbours as colours. */
  predicate Equal(f: Fixed, conflicts: seq<int>, v: nat) {
    v < |f.avail| && v < |conflicts| && conflicts[v] == f.avail[v]
  }

  predicate Fewer(f: Fixed, conflicts: seq<int>, v: nat) {
    v < |f.avail| && v < |conflicts| && conflicts[v] < f.avail[v]
  }

  ghost predicate Sizes(f: Fixed, l: Lists, w: View, conflicts: seq<int>) {
    && |l.moves| == |w.arcs| == |conflicts| == |f.avail|
    && forall m :: m in f.ends ==> f.ends[m].0 < |w.arcs| && f.ends[m].1 < |w.arcs|
  }

  /** Only live nodes are on a list. */
  ghost predicate Fresh(l: Lists, w: View) {
    forall v :: v in l.simplify || v in l.freeze || v in l.spill ==> v < |w.arcs| && v !in w.stack && v !in w.merged
  }

  /** Every live node that is not precoloured is on a list. */
  ghost predicate Listed(f: Fixed, l: Lists, w: View) {
    forall v: nat :: v < |w.arcs| && v !in f.precolored ==>
      v in w.stack || v in w.merged || v in l.simplify || v in l.freeze || v in l.spill
  }

  ghost predicate Apart(l: Lists) {
    l.simplify !! l.freeze && l.simplify !! l.spill && l.freeze !! l.spill
  }

  /** Nodes to be spilled have as many live neighbours as colours, nodes to be frozen fewer. */
  ghost predicate Ranked(f: Fixed, l: Lists, conflicts: seq<int>, skip: set<nat>)
    requires |f.avail| == |conflicts|
  {
    && (forall v :: v in l.spill && v !in skip && v < |conflicts| ==> f.avail[v] <= conflicts[v])
    && (forall v :: v in l.freeze && v !in skip && v < |conflicts| ==> conflicts[v] < f.avail[v])
  }

  /** A node to be frozen has an open move. */
  ghost predicate Frozen(f: Fixed, l: Lists, exempt: set<nat>) {
    forall v :: v in l.freeze && v !in f.precolored && v !in exempt && v < |l.moves| ==> Moving(l, v)
  }

  /** A node that is simplified, or to be simplified, has none. */
  ghost predicate Quiet(l: Lists, w: View, exempt: set<nat>) {
    forall v :: (v in w.stack || (v in l.simplify && v !in exempt)) && v < |l.moves| ==> !Moving(l, v)
  }

  /** The nodes that the ends of an open move stand for know of it. */
  ghost predicate MovesKnown(f: Fixed, l: Lists, w: View)
    requires Shape(w) && |l.moves| == |w.arcs|
  {
    forall m :: m in l.open ==>
      && m in f.ends && f.ends[m].0 < |w.arcs| && f.ends[m].1 < |w.arcs|
      && m in l.moves[Rep(w, f.ends[m].0)] && m in l.moves[Rep(w, f.ends[m].1)]
  }

  /** ... and no other live node does. */
  ghost predicate MovesOnly(f: Fixed, l: Lists, w: View)
    requires Shape(w) && |l.moves| == |w.arcs|
  {
    forall v: nat, m :: v < |w.arcs| && v !in w.merged && m in l.moves[v] && m in l.open ==>
      && m in f.ends && f.ends[m].0 < |w.arcs| && f.ends[m].1 < |w.arcs|
      && (v == Rep(w, f.ends[m].0) || v == Rep(w, f.ends[m].1))
  }

  /** All of this, while the counts of the nodes in `skip` are being changed and the moves of
      those in `exempt` are. */
  ghost predicate ListsOk(f: Fixed, l: Lists, w: View, conflicts: seq<int>, skip: set<nat>, exempt: set<nat>) {
    && Shape(w) && Sizes(f, l, w, conflicts) && Fresh(l, w) && Listed(f, l, w) && Apart(l)
    && Ranked(f, l, conflicts, skip) && Frozen(f, l, exempt) && Quiet(l, w, exempt)
    && MovesKnown(f, l, w) && MovesOnly(f, l, w)
  }

  ghost predicate Live(w: View, v: nat) {
    v < |w.arcs| && v !in w.stack && v !in w.merged
  }

  // ---------- decrement_degree ----------

  /** The lists after node v has lost a neighbour. */
  function Decremented(f: Fixed, l: Lists, conflicts: seq<int>, v: nat): Lists
  {
    if !Equal(f, conflicts, v) then l
    else if Moving(l, v) then l.(spill := l.spill - {v}, freeze := l.freeze + {v})
    else if v in f.precolored then l.(spill := l.spill - {v})
    else l.(spill := l.spill - {v}, simplify := l.simplify + {v})
  }

  lemma DecrementKeeps(f: Fixed, l: Lists, w: View, conflicts: seq<int>, skip: set<nat>, exempt: set<nat>, v: nat)
    requires ListsOk(f, l, w, conflicts, skip, exempt) && Live(w, v) && v !in exempt
    requires v in l.spill ==> v < |f.avail| && v < |conflicts| && f.avail[v] <= conflicts[v]
    requires v in l.freeze ==> v < |f.avail| && v < |conflicts| && conflicts[v] <= f.avail[v]
    ensures v < |f.avail| && v < |conflicts| && v < |l.moves|
    ensures ListsOk(f, Decremented(f, l, conflicts, v), w, conflicts[v := conflicts[v] - 1], skip - {v}, exempt)
  {
    hide Shape, MovesKnown, MovesOnly;
    MovesSame(f, l, Decremented(f, l, conflicts, v), w);
  }

  lemma MovesSame(f: Fixed, l: Lists, l': Lists, w: View)
    requires Shape(w) && |l.moves| == |w.arcs| && MovesKnown(f, l, w) && MovesOnly(f, l, w)
    requires l'.moves == l.moves && l'.open == l.open
    ensures MovesKnown(f, l', w) && MovesOnly(f, l', w)
  {
    hide Shape;
  }

  /** The lists after all of `nodes` have lost one neighbour each. */
  function Dropped(f: Fixed, l: Lists, conflicts: seq<int>, nodes: set<nat>): Lists
  {
    var low := set v | v in nodes && Equal(f, conflicts, v);
    l.(spill := l.spill - low,
       freeze := l.freeze + (set v | v in low && Moving(l, v)),
       simplify := l.simplify + (set v | v in low && !Moving(l, v) && v !in f.precolored))
  }

  lemma NothingDropped(f: Fixed, l: Lists, conflicts: seq<int>)
    ensures Dropped(f, l, conflicts, {}) == l
  {
  }

  lemma DroppedMore(f: Fixed, l: Lists, conflicts: seq<int>, done: set<nat>, v: nat)
    requires v < |conflicts| && v !in done
    ensures forall now: seq<int> :: |now| == |conflicts| && now[v] == conflicts[v] ==>
              Dropped(f, l, conflicts, done + {v}) == Decremented(f, Dropped(f, l, conflicts, done), now, v)
  {
    var d := Dropped(f, l, conflicts, done);
    assert forall u: nat :: u < |l.moves| ==> (Moving(d, u) <==> Moving(l, u));
  }

  lemma DecrementedFacts(f: Fixed, l: Lists, conflicts: seq<int>, v: nat)
    ensures var l' := Decremented(f, l, conflicts, v);
            l'.spill <= l.spill && l'.simplify <= l.simplify + {v} && l'.open == l.open && l'.moves == l.moves
  {
  }

  lemma ListsApart(f: Fixed, l: Lists, w: View, conflicts: seq<int>, skip: set<nat>, exempt: set<nat>)
    requires ListsOk(f, l, w, conflicts, skip, exempt)
    ensures Apart(l) && Shape(w) && |w.arcs| == |l.moves| == |conflicts| == |f.avail|
  {
  }

  lemma MarkedIs(l: Lists, w: View, a: nat, b: nat)
    requires Apart(l) && a < |l.moves| && b < |l.moves| && b < |w.alias|
    ensures Marked(l, a, b).spill == l.spill - {b} && Marked(l, a, b).freeze == l.freeze - {b}
    ensures Marked(l, a, b) == Lists(l.simplify, l.freeze - {b}, l.spill - {b}, l.open,
              l.moves[a := l.moves[a] + l.moves[b]])
    ensures (b in l.freeze ==> l.spill - {b} == l.spill) && (b !in l.freeze ==> l.freeze - {b} == l.freeze)
  {
  }

  lemma MarkedViewIs(w: View, a: nat, b: nat)
    requires b < |w.alias|
    ensures MarkedView(w, a, b) == View(w.arcs, w.alias[b := a], w.merged + [b], w.stack)
  {
  }

  lemma RankedAt(f: Fixed, l: Lists, w: View, conflicts: seq<int>, skip: set<nat>, exempt: set<nat>, v: nat)
    requires ListsOk(f, l, w, conflicts, skip, exempt) && v < |w.arcs| && v !in skip
    ensures v < |f.avail| && v < |conflicts| && |w.arcs| == |conflicts| == |l.moves| == |f.avail|
    ensures (v in l.spill ==> f.avail[v] <= conflicts[v]) && (v in l.freeze ==> conflicts[v] < f.avail[v])
  {
    hide Shape, MovesKnown, MovesOnly;
  }

  lemma LiveIs(w: View, v: nat)
    ensures Live(w, v) <==> v < |w.arcs| && v !in w.stack && v !in w.merged
    ensures (v !in w.stack <==> v !in Elems(w.stack)) && (v !in w.merged <==> v !in Elems(w.merged))
  {
  }

  lemma LiveAmong(w: View, f: nat)
    requires Shape(w) && f < |w.arcs|
    ensures forall v :: v in Adjacent(w, f) ==> Live(w, v)
  {
  }

  lemma ElemsIs(stack: seq<nat>, f: nat)
    ensures Elems([f] + stack) == Elems(stack) + {f}
  {
    assert forall x :: x in [f] + stack <==> x == f || x in stack;
  }

  // ---------- coalesce ----------

  /** An open move is closed; what it joins may be left without an open move. */
  lemma CloseKeeps(f: Fixed, l: Lists, w: View, conflicts: seq<int>, exempt: set<nat>, m: nat)
    requires ListsOk(f, l, w, conflicts, {}, exempt) && m in l.open
    ensures m in f.ends && f.ends[m].0 < |w.arcs| && f.ends[m].1 < |w.arcs|
    ensures ListsOk(f, l.(open := l.open - {m}), w, conflicts, {},
                    exempt + {Rep(w, f.ends[m].0), Rep(w, f.ends[m].1)})
  {
    hide Shape;
    var l' := l.(open := l.open - {m});
    forall v | v in l.freeze && v !in f.precolored && v !in exempt + {Rep(w, f.ends[m].0), Rep(w, f.ends[m].1)}
      && v < |l.moves|
      ensures Moving(l', v)
    {
      var x :| x in l.open * l.moves[v];
      assert v !in w.merged;
      assert x != m;
      assert x in l'.open * l'.moves[v];
    }
    assert forall v: nat :: v < |l.moves| && !Moving(l, v) ==> !Moving(l', v);
  }

  /** The four sets of moves that coalesce deals with. */
  datatype MoveSets = MoveSets(active: set<nat>, work: set<nat>, coalesced: set<nat>, constrained: set<nat>)

  datatype Verdict = Already | Interfering | Joins | Waits

  ghost predicate Between(w: View, e: (nat, nat)) {
    Shape(w) && e.0 < |w.arcs| && e.1 < |w.arcs|
  }

  /** What the ends of a move stand for, source first; a precoloured node is the destination. */
  ghost function Turned(w: View, precolored: set<nat>, e: (nat, nat)): (nat, nat)
    requires Between(w, e)
  {
    if Rep(w, e.1) in precolored then (Rep(w, e.0), Rep(w, e.1)) else (Rep(w, e.1), Rep(w, e.0))
  }

  /** The nodes with too many neighbours. */
  function Significant(w: View, conflicts: seq<int>, nodes: set<nat>, avail: nat): set<nat> {
    set i | i in nodes && i < |conflicts| && conflicts[i] >= avail
  }

  /** The test for a precoloured destination: every live neighbour of the source has few
      neighbours, is precoloured, or is a neighbour of the destination anyway. */
  ghost predicate Harmless(f: Fixed, w: View, conflicts: seq<int>, src: nat, dst: nat) {
    src < |w.arcs| && forall i :: i in Adjacent(w, src) ==>
      i < |w.arcs| && (Fewer(f, conflicts, i) || i in f.precolored || dst in w.arcs[i])
  }

  /** The test for others: together they have fewer significant neighbours than colours. */
  ghost predicate Few(f: Fixed, w: View, conflicts: seq<int>, src: nat, dst: nat) {
    && src < |w.arcs| && dst < |w.arcs| && src < |f.avail|
    && |Significant(w, conflicts, Adjacent(w, src) + Adjacent(w, dst), f.avail[src])| < f.avail[src]
  }

  ghost function Judge(f: Fixed, w: View, conflicts: seq<int>, src: nat, dst: nat): Verdict
    requires src < |w.arcs|
  {
    if src == dst then Already
    else if src in f.precolored || dst in w.arcs[src] then Interfering
    else if if dst in f.precolored then Harmless(f, w, conflicts, src, dst)
      else Few(f, w, conflicts, src, dst) then Joins
    else Waits
  }

  /** The counts once the nodes of `done` have been joined to a and taken from b. */
  function MergedCounts(w: View, a: nat, before: seq<int>, done: set<nat>): seq<int>
    requires a < |w.arcs|
  {
    seq(|before|, v requires 0 <= v < |before| =>
      if v == a then before[v] + |done - w.arcs[a]|
      else if v in done then before[v] - (if v in w.arcs[a] then 1 else 0)
      else before[v])
  }

  /** The moves in which one of the nodes takes part. */
  ghost function MovesOf(moves: seq<set<nat>>, nodes: set<nat>): set<nat> {
    set v, m | v in nodes && v < |moves| && m in moves[v] :: m
  }

  lemma NoMoves(moves: seq<set<nat>>)
    ensures MovesOf(moves, {}) == {}
  {
  }

  lemma MoreMoves(moves: seq<set<nat>>, nodes: set<nat>, v: nat)
    requires v < |moves|
    ensures MovesOf(moves, nodes + {v}) == MovesOf(moves, nodes) + moves[v]
  {
  }

  lemma MovesUnion(moves: seq<set<nat>>, a: set<nat>, b: set<nat>)
    ensures MovesOf(moves, a + b) == MovesOf(moves, a) + MovesOf(moves, b)
  {
  }

  /** decrement_degree looks again at the moves of these nodes when v loses a neighbour. */
  ghost function WokenBy(f: Fixed, w: View, conflicts: seq<int>, v: nat): set<nat> {
    if Equal(f, conflicts, v) && v < |w.arcs| then Adjacent(w, v) + {v} else {}
  }

  /** ... and at the moves of these when all of `nodes` lose one. */
  ghost function Woken(f: Fixed, w: View, conflicts: seq<int>, nodes: set<nat>): set<nat> {
    set v, x | v in nodes && x in WokenBy(f, w, conflicts, v) :: x
  }

  lemma NoneWoken(f: Fixed, w: View, conflicts: seq<int>)
    ensures Woken(f, w, conflicts, {}) == {}
  {
  }

  lemma WokenMore(f: Fixed, w: View, conflicts: seq<int>, now: seq<int>, done: set<nat>, v: nat, moves: seq<set<nat>>)
    requires v < |conflicts| == |now| && now[v] == conflicts[v]
    ensures MovesOf(moves, Woken(f, w, conflicts, done + {v})) ==
            MovesOf(moves, Woken(f, w, conflicts, done)) + MovesOf(moves, WokenBy(f, w, now, v))
  {
    assert WokenBy(f, w, now, v) == WokenBy(f, w, conflicts, v);
    hide WokenBy;
    assert Woken(f, w, conflicts, done + {v}) == Woken(f, w, conflicts, done) + WokenBy(f, w, conflicts, v);
    MovesUnion(moves, Woken(f, w, conflicts, done), WokenBy(f, w, conflicts, v));
  }

  /** The count that decrement_degree finds for each of `nodes` when it has just been joined to a. */
  function Bumped(w: View, a: nat, conflicts: seq<int>, nodes: set<nat>): seq<int>
    requires a < |w.arcs|
  {
    seq(|conflicts|, v requires 0 <= v < |conflicts| =>
      if v in nodes && v !in w.arcs[a] then conflicts[v] + 1 else conflicts[v])
  }

  /** The lists after combine: b leaves its list and its moves to a, its neighbours lose it, and
      a is not kept for freezing when it has too many neighbours now. */
  function Remade(f: Fixed, l: Lists, w: View, conflicts: seq<int>, a: nat, b: nat): Lists
    requires a < |w.arcs| && b < |w.arcs| && a < |l.moves| && b < |l.moves|
  {
    var nodes := Adjacent(w, b);
    Left(f, Dropped(f, Marked(l, a, b), Bumped(w, a, conflicts, nodes), nodes), MergedCounts(w, a, conflicts, nodes), a)
  }

  /** The moves that combine looks at again: those of b, and those of neighbours of b that are
      left with just as many neighbours as colours. */
  ghost function Reopened(f: Fixed, moves: seq<set<nat>>, w: View, conflicts: seq<int>, a: nat, b: nat): set<nat>
    requires a < |w.arcs| && b < |w.arcs| && b < |w.alias|
  {
    var nodes := Adjacent(w, b);
    MovesOf(moves, {b}) + MovesOf(moves, Woken(f, Combined(w, a, b), Bumped(w, a, conflicts, nodes), nodes))
  }

  /** What coalesce makes of the verdict. */
  ghost predicate Decided(f: Fixed, moves: seq<set<nat>>, w: View, conflicts: seq<int>, src: nat, dst: nat, mv: nat,
                          w': View, s: MoveSets, s': MoveSets)
  {
    src < |w.arcs| && dst < |w.arcs| && src < |moves| && dst < |moves| &&
    match Judge(f, w, conflicts, src, dst)
    case Already => w' == w && s' == s.(work := s.work - {mv}, coalesced := s.coalesced + {mv})
    case Interfering => w' == w && s' == s.(work := s.work - {mv}, constrained := s.constrained + {mv})
    case Joins => Mergeable(w, dst, src) && w' == Combined(w, dst, src)
                  && Closed(s, s', mv, Reopened(f, Handed(moves, dst, src), w, conflicts, dst, src))
    case Waits => w' == w && s' == s.(work := s.work - {mv}, active := s.active + {mv})
  }

  /** The lists after coalesce; a move that waits changes none. */
  ghost predicate Relisted(f: Fixed, l: Lists, w: View, conflicts: seq<int>, src: nat, dst: nat, mv: nat, l': Lists) {
    src < |w.arcs| && dst < |w.arcs| && src < |l.moves| && dst < |l.moves| &&
    match Judge(f, w, conflicts, src, dst)
    case Already => l' == Added(f, l.(open := l.open - {mv}), conflicts, dst)
    case Interfering => l' == Added(f, Added(f, l.(open := l.open - {mv}), conflicts, dst), conflicts, src)
    case Joins => l' == Added(f, Remade(f, l.(open := l.open - {mv}), w, conflicts, dst, src),
                              MergedCounts(w, dst, conflicts, Adjacent(w, src)), dst)
    case Waits => l' == l
  }

  lemma RelistedIs(f: Fixed, l: Lists, w: View, conflicts: seq<int>, src: nat, dst: nat, mv: nat, l': Lists)
    requires src < |w.arcs| && dst < |w.arcs| && src < |l.moves| && dst < |l.moves|
    requires if src == dst then l' == Added(f, l.(open := l.open - {mv}), conflicts, dst)
             else if src in f.precolored || dst in w.arcs[src] then
               l' == Added(f, Added(f, l.(open := l.open - {mv}), conflicts, dst), conflicts, src)
             else if if dst in f.precolored then Harmless(f, w, conflicts, src, dst) else Few(f, w, conflicts, src, dst)
             then l' == Added(f, Remade(f, l.(open := l.open - {mv}), w, conflicts, dst, src),
                              MergedCounts(w, dst, conflicts, Adjacent(w, src)), dst)
             else l' == l
    ensures Relisted(f, l, w, conflicts, src, dst, mv, l')
  {
    hide Harmless, Few, Added, Remade, MergedCounts, Adjacent;
  }

  /** The moves of the nodes when b has left its own to a. */
  function Handed(moves: seq<set<nat>>, a: nat, b: nat): seq<set<nat>>
    requires a < |moves| && b < |moves|
  {
    moves[a := moves[a] + moves[b]]
  }

  /** A move has been coalesced, and others have been enabled again. */
  ghost predicate Closed(s: MoveSets, s': MoveSets, mv: nat, back: set<nat>) {
    && s'.coalesced == s.coalesced + {mv} && s'.constrained == s.constrained
    && s'.active == s.active - back && s'.work == s.work - {mv} + s.active * back
  }

  lemma ClosedNow(s: MoveSets, s': MoveSets, mv: nat, back: set<nat>)
    requires s'.coalesced == s.coalesced + {mv} && s'.constrained == s.constrained
    requires s.active !! s.work && mv in s.work && s'.active !! s'.work
    requires s'.active + s'.work == (s.active + s.work) - {mv} && s'.active == s.active - back
    ensures Closed(s, s', mv, back)
  {
  }

  lemma JudgeIs(f: Fixed, moves: seq<set<nat>>, w: View, conflicts: seq<int>, src: nat, dst: nat, mv: nat, w': View,
                s: MoveSets, s': MoveSets)
    requires src < |w.arcs| && dst < |w.arcs| && src < |moves| && dst < |moves|
    requires if src == dst then w' == w && s' == s.(work := s.work - {mv}, coalesced := s.coalesced + {mv})
             else if src in f.precolored || dst in w.arcs[src] then
               w' == w && s' == s.(work := s.work - {mv}, constrained := s.constrained + {mv})
             else if if dst in f.precolored then Harmless(f, w, conflicts, src, dst) else Few(f, w, conflicts, src, dst)
             then Mergeable(w, dst, src) && w' == Combined(w, dst, src) && src < |w.alias|
                  && Closed(s, s', mv, Reopened(f, Handed(moves, dst, src), w, conflicts, dst, src))
             else w' == w && s' == s.(work := s.work - {mv}, active := s.active + {mv})
    ensures Decided(f, moves, w, conflicts, src, dst, mv, w', s, s')
  {
    hide Harmless, Few, Combined, Closed, Reopened, Handed;
  }

  ghost predicate ArcsGrow(arcs: seq<set<nat>>, arcs': seq<set<nat>>) {
    |arcs'| == |arcs| && forall v :: 0 <= v < |arcs| ==> arcs[v] <= arcs'[v]
  }

  lemma DecidedGrows(f: Fixed, moves: seq<set<nat>>, w: View, conflicts: seq<int>, src: nat, dst: nat, mv: nat,
                     w': View,
                     s: MoveSets, s': MoveSets)
    requires Decided(f, moves, w, conflicts, src, dst, mv, w', s, s')
    ensures ArcsGrow(w.arcs, w'.arcs)
  {
    hide Harmless, Few, Closed, Reopened, Handed;
  }

  lemma GrowSelf(arcs: seq<set<nat>>)
    ensures ArcsGrow(arcs, arcs)
  {
  }

  lemma GrowTwice(a: seq<set<nat>>, b: seq<set<nat>>, c: seq<set<nat>>)
    requires ArcsGrow(a, b) && ArcsGrow(b, c)
    ensures ArcsGrow(a, c)
  {
    forall v | 0 <= v < |a| ensures a[v] <= c[v] {
      assert a[v] <= b[v] && b[v] <= c[v];
    }
  }

  lemma TurnedIs(w: View, precolored: set<nat>, e: (nat, nat), src: nat, dst: nat)
    requires Between(w, e)
    requires if Rep(w, e.1) in precolored then src == Rep(w, e.0) && dst == Rep(w, e.1)
             else src == Rep(w, e.1) && dst == Rep(w, e.0)
    ensures Turned(w, precolored, e) == (src, dst) && {} + {Rep(w, e.0), Rep(w, e.1)} == {src, dst}
  {
  }

  /** The ends of an open move stand for live nodes. */
  lemma EndsLive(f: Fixed, l: Lists, w: View, conflicts: seq<int>, m: nat)
    requires ListsOk(f, l, w, conflicts, {}, {}) && m in l.open
    ensures m in f.ends && Between(w, f.ends[m])
    ensures Live(w, Rep(w, f.ends[m].0)) && Live(w, Rep(w, f.ends[m].1))
  {
    hide Shape;
    assert m in l.open * l.moves[Rep(w, f.ends[m].0)] && m in l.open * l.moves[Rep(w, f.ends[m].1)];
  }

  lemma OneLess(active: set<nat>, work: set<nat>, m: nat)
    requires active !! work && m in work
    ensures active + (work - {m}) == active + work - {m} && active !! work - {m}
    ensures active + {m} + (work - {m}) == active + work && active + {m} !! work - {m}
  {
  }

  lemma AddedFacts(f: Fixed, l: Lists, conflicts: seq<int>, v: nat)
    ensures var l' := Added(f, l, conflicts, v);
            && l'.freeze <= l.freeze && l'.simplify <= l.simplify + {v} && l'.spill == l.spill
            && l'.open == l.open && l'.moves == l.moves
  {
  }

  /** add_worklist. */
  function Added(f: Fixed, l: Lists, conflicts: seq<int>, v: nat): Lists {
    if v !in f.precolored && !Moving(l, v) && Fewer(f, conflicts, v) then
      l.(freeze := l.freeze - {v}, simplify := l.simplify + {v})
    else l
  }

  lemma AddKeeps(f: Fixed, l: Lists, w: View, conflicts: seq<int>, exempt: set<nat>, v: nat)
    requires ListsOk(f, l, w, conflicts, {}, exempt) && Live(w, v) && v !in l.simplify
    ensures v < |f.avail| && v < |conflicts| && v < |l.moves|
    ensures ListsOk(f, Added(f, l, conflicts, v), w, conflicts, {}, exempt - {v})
  {
    hide Shape, MovesKnown, MovesOnly;
    MovesSame(f, l, Added(f, l, conflicts, v), w);
  }

  /** The marks that combine sets for b merged into a. */
  function Marked(l: Lists, a: nat, b: nat): Lists
    requires a < |l.moves| && b < |l.moves|
  {
    l.(freeze := l.freeze - {b}, spill := l.spill - {b}, moves := Handed(l.moves, a, b))
  }

  function MarkedView(w: View, a: nat, b: nat): View
    requires b < |w.alias|
  {
    w.(alias := w.alias[b := a], merged := w.merged + [b])
  }

  lemma MarkedRep(w: View, a: nat, b: nat)
    requires Mergeable(w, a, b)
    ensures b < |w.alias| && Shape(MarkedView(w, a, b)) && Shape(Combined(w, a, b))
    ensures |Combined(w, a, b).arcs| == |w.arcs|
    ensures forall v: nat :: v < |w.arcs| ==>
              Rep(MarkedView(w, a, b), v) == Rep(Combined(w, a, b), v) == if Rep(w, v) == b then a else Rep(w, v)
  {
    CombineShape(w, a, b);
    var w', c := MarkedView(w, a, b), Combined(w, a, b);
    assert Shape(w');
    forall v: nat | v < |w.arcs| ensures Rep(w', v) == Rep(c, v) == if Rep(w, v) == b then a else Rep(w, v) {
      RepCombined(w, a, b, v);
      RepSameMerges(c, w', v);
    }
  }

  lemma MarkKeeps(f: Fixed, l: Lists, w: View, conflicts: seq<int>, a: nat, b: nat)
    requires ListsOk(f, l, w, conflicts, {}, {a, b}) && Mergeable(w, a, b) && l.simplify == {}
    ensures b < |w.alias| && a < |l.moves| && b < |l.moves|
    ensures ListsOk(f, Marked(l, a, b), MarkedView(w, a, b), conflicts, {}, {a})
  {
    MarkedRep(w, a, b);
    MarkedMoves(f, l, w, a, b);
    hide Shape, MovesKnown, MovesOnly;
    var l', w' := Marked(l, a, b), MarkedView(w, a, b);
    assert forall v :: v in w'.merged <==> v in w.merged || v == b;
    assert Quiet(l', w', {a});
    assert Frozen(f, l', {a});
  }

  lemma MarkedMoves(f: Fixed, l: Lists, w: View, a: nat, b: nat)
    requires Mergeable(w, a, b) && |l.moves| == |w.arcs| && MovesKnown(f, l, w) && MovesOnly(f, l, w)
    ensures b < |w.alias| && Shape(MarkedView(w, a, b))
    ensures MovesKnown(f, Marked(l, a, b), MarkedView(w, a, b)) && MovesOnly(f, Marked(l, a, b), MarkedView(w, a, b))
  {
    MarkedRep(w, a, b);
    MarkedKnown(f, l, w, a, b);
    MarkedOnly(f, l, w, a, b);
  }

  lemma MarkedKnown(f: Fixed, l: Lists, w: View, a: nat, b: nat)
    requires Mergeable(w, a, b) && |l.moves| == |w.arcs| && MovesKnown(f, l, w)
    ensures b < |w.alias| && Shape(MarkedView(w, a, b)) && MovesKnown(f, Marked(l, a, b), MarkedView(w, a, b))
  {
    MarkedRep(w, a, b);
    hide Shape, Combined;
  }

  lemma MarkedOnly(f: Fixed, l: Lists, w: View, a: nat, b: nat)
    requires Mergeable(w, a, b) && |l.moves| == |w.arcs| && MovesOnly(f, l, w)
    ensures b < |w.alias| && Shape(MarkedView(w, a, b)) && MovesOnly(f, Marked(l, a, b), MarkedView(w, a, b))
  {
    MarkedRep(w, a, b);
    hide Shape, Combined;
    assert forall v :: v in MarkedView(w, a, b).merged <==> v in w.merged || v == b;
  }

  /** Counts may change where they are skipped. */
  lemma SkipMore(f: Fixed, l: Lists, w: View, conflicts: seq<int>, conflicts': seq<int>, skip: set<nat>,
                 skip': set<nat>,
                 exempt: set<nat>)
    requires ListsOk(f, l, w, conflicts, skip, exempt) && |conflicts'| == |conflicts| && skip <= skip'
    requires forall v :: 0 <= v < |conflicts| && v !in skip' ==> conflicts'[v] == conflicts[v]
    ensures ListsOk(f, l, w, conflicts', skip', exempt)
  {
    hide Shape, MovesKnown, MovesOnly, Frozen, Quiet;
  }

  /** The end of combine. */
  function Left(f: Fixed, l: Lists, conflicts: seq<int>, a: nat): Lists {
    if !Fewer(f, conflicts, a) && a in l.freeze then l.(freeze := l.freeze - {a}, spill := l.spill + {a}) else l
  }

  lemma LeaveKeeps(f: Fixed, l: Lists, w: View, conflicts: seq<int>, exempt: set<nat>, a: nat)
    requires ListsOk(f, l, w, conflicts, {a}, exempt) && Live(w, a)
    requires a in l.spill ==> a < |f.avail| && a < |conflicts| && f.avail[a] <= conflicts[a]
    ensures a < |f.avail| && a < |conflicts|
    ensures ListsOk(f, Left(f, l, conflicts, a), w, conflicts, {}, exempt)
  {
    hide Shape, MovesKnown, MovesOnly;
    MovesSame(f, l, Left(f, l, conflicts, a), w);
  }

  /** The lists see only what nodes stand for, not the arcs. */
  lemma SameReps(f: Fixed, l: Lists, w: View, w': View, conflicts: seq<int>, skip: set<nat>, exempt: set<nat>)
    requires ListsOk(f, l, w, conflicts, skip, exempt) && Shape(w') && |w'.arcs| == |w.arcs|
    requires w'.alias == w.alias && w'.merged == w.merged && w'.stack == w.stack
    ensures ListsOk(f, l, w', conflicts, skip, exempt)
  {
    hide Shape;
    forall v: nat | v < |w.arcs| ensures Rep(w', v) == Rep(w, v) {
      RepSameMerges(w, w', v);
    }
  }

  // ---------- simplify ----------

  lemma StackKeeps(f: Fixed, l: Lists, w: View, conflicts: seq<int>, v: nat)
    requires ListsOk(f, l, w, conflicts, {}, {}) && v in l.simplify
    ensures Live(w, v) && ListsOk(f, l.(simplify := l.simplify - {v}), Pushed(w, v), conflicts, {}, {})
  {
    PushShape(w, v);
    hide Shape;
    var l', w' := l.(simplify := l.simplify - {v}), Pushed(w, v);
    assert forall x :: x in w'.stack <==> x == v || x in w.stack;
    assert MovesKnown(f, l', w');
    assert MovesOnly(f, l', w');
    assert Quiet(l', w', {});
  }

  // ---------- freeze, select_spill ----------

  /** A node goes to the list of nodes to be simplified before its moves are frozen. */
  function Released(l: Lists, v: nat): Lists {
    l.(simplify := l.simplify + {v}, freeze := l.freeze - {v}, spill := l.spill - {v})
  }

  lemma ReleasedIs(l: Lists, v: nat)
    ensures Released(l, v) == Lists(l.simplify + {v}, l.freeze - {v}, l.spill - {v}, l.open, l.moves)
  {
  }

  lemma ReleaseKeeps(f: Fixed, l: Lists, w: View, conflicts: seq<int>, v: nat)
    requires ListsOk(f, l, w, conflicts, {}, {}) && (v in l.freeze || v in l.spill)
    ensures Live(w, v) && ListsOk(f, Released(l, v), w, conflicts, {}, {v})
  {
    hide Shape, MovesKnown, MovesOnly;
    MovesSame(f, l, Released(l, v), w);
  }

  /** A live node without open moves and with few neighbours is to be simplified. */
  lemma MustSimplify(f: Fixed, l: Lists, w: View, conflicts: seq<int>, v: nat)
    requires ListsOk(f, l, w, conflicts, {}, {}) && Live(w, v) && v !in f.precolored
    requires !Moving(l, v) && Fewer(f, conflicts, v)
    ensures v in l.simplify
  {
    hide Shape, MovesKnown, MovesOnly;
  }

  lemma LiveListed(f: Fixed, l: Lists, w: View, conflicts: seq<int>, v: nat)
    requires ListsOk(f, l, w, conflicts, {}, {}) && v in l.simplify
    ensures Live(w, v)
  {
    hide Shape, MovesKnown, MovesOnly;
  }

  lemma SpillInRange(f: Fixed, l: Lists, w: View, conflicts: seq<int>)
    requires ListsOk(f, l, w, conflicts, {}, {})
    ensures forall v :: v in l.spill ==> v < |w.arcs|
  {
  }

  /** What freeze_moves does with the other node of a frozen move; it does not look whether
      that node is precoloured. */
  function Thawed(f: Fixed, l: Lists, conflicts: seq<int>, x: nat): Lists {
    if !Moving(l, x) && Fewer(f, conflicts, x) then l.(freeze := l.freeze - {x}, simplify := l.simplify + {x}) else l
  }

  lemma ThawKeeps(f: Fixed, l: Lists, w: View, conflicts: seq<int>, exempt: set<nat>, x: nat)
    requires ListsOk(f, l, w, conflicts, {}, exempt + {x}) && Live(w, x) && (x in exempt || x !in l.simplify)
    ensures x < |f.avail| && x < |conflicts| && x < |l.moves|
    ensures ListsOk(f, Thawed(f, l, conflicts, x), w, conflicts, {}, exempt)
  {
    hide Shape, MovesKnown, MovesOnly;
    MovesSame(f, l, Thawed(f, l, conflicts, x), w);
  }

  /** The node at the other end of a move of v. */
  ghost function Other(f: Fixed, w: View, v: nat, m: nat): nat
    requires m in f.ends && Between(w, f.ends[m])
  {
    if Rep(w, f.ends[m].1) == v then Rep(w, f.ends[m].0) else Rep(w, f.ends[m].1)
  }

  /** One move of v frozen: v is to be simplified, and x is at the other end. */
  lemma FreezeKeeps(f: Fixed, l: Lists, w: View, conflicts: seq<int>, v: nat, m: nat, x: nat)
    requires ListsOk(f, l, w, conflicts, {}, {v}) && v in l.simplify && v < |l.moves| && m in l.open && m in l.moves[v]
    requires m in f.ends && Between(w, f.ends[m]) && x == Other(f, w, v, m)
    ensures x < |f.avail| && x < |conflicts| && x < |l.moves| && Live(w, x) && (x != v ==> x !in l.simplify)
    ensures ListsOk(f, Thawed(f, l.(open := l.open - {m}), conflicts, x), w, conflicts, {}, {v})
  {
    hide Shape;
    assert v !in w.merged;
    assert v == Rep(w, f.ends[m].0) || v == Rep(w, f.ends[m].1);
    assert m in l.open * l.moves[x] && Moving(l, x);
    CloseKeeps(f, l, w, conflicts, {v}, m);
    assert {v} + {Rep(w, f.ends[m].0), Rep(w, f.ends[m].1)} == {v} + {x};
    ThawKeeps(f, l.(open := l.open - {m}), w, conflicts, {v}, x);
  }

  ghost predicate Partner(f: Fixed, w: View, v: nat, done: set<nat>, x: nat) {
    exists m :: m in done && m in f.ends && Between(w, f.ends[m]) && Other(f, w, v, m) == x
  }

  /** A partner that is left without open moves and has few neighbours. */
  ghost predicate Loosened(f: Fixed, w: View, conflicts: seq<int>, v: nat, done: set<nat>, l: Lists, x: nat) {
    Partner(f, w, v, done, x) && !Moving(l, x) && Fewer(f, conflicts, x)
  }

  /** What freezing the moves `done` of v makes of the lists l0: just the loosened partners,
      precoloured or not, are to be simplified now. */
  ghost predicate Frosted(f: Fixed, l0: Lists, w: View, conflicts: seq<int>, v: nat, done: set<nat>, l: Lists) {
    && l == l0.(simplify := l.simplify, freeze := l.freeze, open := l0.open - done)
    && v in l.simplify && v !in l.freeze
    && (forall x: nat :: x != v ==> (x in l.simplify <==> x in l0.simplify || Loosened(f, w, conflicts, v, done, l, x)))
    && (forall x: nat :: x != v ==> (x in l.freeze <==> x in l0.freeze && !Loosened(f, w, conflicts, v, done, l, x)))
  }

  lemma OpenEnds(f: Fixed, l: Lists, w: View, conflicts: seq<int>, v: nat, m: nat)
    requires ListsOk(f, l, w, conflicts, {}, {v}) && m in l.open && v < |l.moves| && v in l.simplify
    ensures Shape(w) && m in f.ends && Between(w, f.ends[m]) && v < |w.arcs| && Rep(w, v) == v
  {
    hide Shape;
    assert v !in w.merged;
  }

  lemma OtherIs(f: Fixed, w: View, v: nat, m: nat)
    requires m in f.ends && Between(w, f.ends[m])
    ensures Other(f, w, v, m) == if v == Rep(w, f.ends[m].1) then Rep(w, f.ends[m].0) else Rep(w, f.ends[m].1)
    ensures f.ends[m].0 < |w.arcs| && f.ends[m].1 < |w.arcs|
  {
  }

  lemma NoneOpen(l: Lists, v: nat)
    requires v < |l.moves|
    ensures !Moving(l, v) <==> l.open * l.moves[v] == {}
  {
  }

  lemma FrostStart(f: Fixed, l: Lists, w: View, conflicts: seq<int>, v: nat)
    requires v in l.simplify && Apart(l)
    ensures Frosted(f, l, w, conflicts, v, {}, l)
  {
    assert l.open - {} == l.open;
  }

  lemma FrostStep(f: Fixed, l0: Lists, w: View, conflicts: seq<int>, v: nat, done: set<nat>, l: Lists, m: nat)
    requires ListsOk(f, l, w, conflicts, {}, {v}) && Frosted(f, l0, w, conflicts, v, done, l)
    requires v < |l.moves| && m in l.open && m in l.moves[v] && m in f.ends && Between(w, f.ends[m])
    ensures var x := Other(f, w, v, m);
            Frosted(f, l0, w, conflicts, v, done + {m}, Thawed(f, l.(open := l.open - {m}), conflicts, x))
  {
    hide Shape;
    var x := Other(f, w, v, m);
    var l' := Thawed(f, l.(open := l.open - {m}), conflicts, x);
    assert v !in w.merged;
    assert m in l.open * l.moves[x] && Moving(l, x);
    assert l0.open - (done + {m}) == l.open - {m};
    assert !Loosened(f, w, conflicts, v, done, l, x);
    forall y: nat | y != v
      ensures Loosened(f, w, conflicts, v, done + {m}, l', y) <==>
              if y == x then !Moving(l', x) && Fewer(f, conflicts, x) else Loosened(f, w, conflicts, v, done, l, y)
    {
      PartnerMore(f, w, v, done, m, y);
      if y != x && Partner(f, w, v, done, y) {
        StillMoving(f, l, w, v, done, m, y);
      }
    }
    hide ListsOk, Partner, Between, Moving, Fewer, Loosened;
    FrostMore(f, l0, w, conflicts, v, done, l, m, x, l');
  }

  lemma FrostMore(f: Fixed, l0: Lists, w: View, conflicts: seq<int>, v: nat, done: set<nat>, l: Lists, m: nat, x: nat,
                  l': Lists)
    requires Frosted(f, l0, w, conflicts, v, done, l) && l' == Thawed(f, l.(open := l.open - {m}), conflicts, x)
    requires l0.open - (done + {m}) == l.open - {m} && (x != v ==> !Loosened(f, w, conflicts, v, done, l, x))
    requires forall y: nat :: y != v ==>
               (Loosened(f, w, conflicts, v, done + {m}, l', y) <==>
                if y == x then !Moving(l', x) && Fewer(f, conflicts, x) else Loosened(f, w, conflicts, v, done, l, y))
    ensures Frosted(f, l0, w, conflicts, v, done + {m}, l')
  {
    hide Fewer, Loosened;
  }

  /** Closing a move of v changes nothing for the nodes that it does not join. */
  lemma StillMoving(f: Fixed, l: Lists, w: View, v: nat, done: set<nat>, m: nat, y: nat)
    requires Shape(w) && |l.moves| == |w.arcs| && MovesOnly(f, l, w) && m in l.open && m in f.ends
               && Between(w, f.ends[m])
    requires v == Rep(w, f.ends[m].0) || v == Rep(w, f.ends[m].1)
    requires Partner(f, w, v, done, y) && y != v && y != Other(f, w, v, m)
    ensures Moving(l.(open := l.open - {m}), y) <==> Moving(l, y)
  {
    hide Shape;
    assert y < |w.arcs| && y !in w.merged;
    assert m !in l.moves[y];
    assert (l.open - {m}) * l.moves[y] == l.open * l.moves[y];
  }

  lemma PartnerMore(f: Fixed, w: View, v: nat, done: set<nat>, m: nat, y: nat)
    requires m in f.ends && Between(w, f.ends[m])
    ensures Partner(f, w, v, done + {m}, y) <==> Partner(f, w, v, done, y) || y == Other(f, w, v, m)
  {
    if Partner(f, w, v, done, y) {
      var k :| k in done && k in f.ends && Between(w, f.ends[k]) && Other(f, w, v, k) == y;
      assert k in done + {m};
    }
    if y == Other(f, w, v, m) {
      assert m in done + {m};
    }
  }

  lemma FrostFacts(f: Fixed, l0: Lists, w: View, conflicts: seq<int>, v: nat, done: set<nat>, l: Lists)
    requires Frosted(f, l0, w, conflicts, v, done, l)
    ensures v in l.simplify && v !in l.freeze && l.freeze <= l0.freeze && l.spill == l0.spill && l.moves == l0.moves
    ensures l.open == l0.open - done
  {
    forall x | x in l.freeze ensures x in l0.freeze {
      assert x != v;
    }
  }

  lemma ReleaseDone(f: Fixed, l: Lists, w: View, conflicts: seq<int>, v: nat)
    requires ListsOk(f, l, w, conflicts, {}, {v}) && v < |l.moves| && !Moving(l, v) && v !in l.freeze
    ensures ListsOk(f, l, w, conflicts, {}, {})
  {
    hide Shape, MovesKnown, MovesOnly;
  }

  // ---------- precoloured nodes ----------

  /** No precoloured node is on a list or has an open move. */
  ghost predicate Clean(f: Fixed, l: Lists) {
    forall p :: p in f.precolored ==> p !in l.simplify && p !in l.freeze && p !in l.spill && !Moving(l, p)
  }

  lemma StepsClean(f: Fixed, l: Lists, conflicts: seq<int>, v: nat)
    requires Clean(f, l)
    ensures Clean(f, Decremented(f, l, conflicts, v)) && Clean(f, Added(f, l, conflicts, v))
              && Clean(f, Left(f, l, conflicts, v))
    ensures v !in f.precolored ==> Clean(f, Placed(f, l, conflicts, v))
  {
  }

  lemma DroppedClean(f: Fixed, l: Lists, v: nat, conflicts: seq<int>, nodes: set<nat>)
    requires Clean(f, l)
    ensures Clean(f, Dropped(f, l.(simplify := l.simplify - {v}), conflicts, nodes))
    ensures v in l.simplify ==> v !in f.precolored
  {
  }

  lemma CloseClean(f: Fixed, l: Lists, w: View, conflicts: seq<int>, m: nat)
    requires ListsOk(f, l, w, conflicts, {}, {}) && m in l.open && Clean(f, l)
    ensures Clean(f, l.(open := l.open - {m})) && m in f.ends && Between(w, f.ends[m])
    ensures Rep(w, f.ends[m].0) !in f.precolored && Rep(w, f.ends[m].1) !in f.precolored
  {
    hide Shape;
    assert m in l.open * l.moves[Rep(w, f.ends[m].0)] && m in l.open * l.moves[Rep(w, f.ends[m].1)];
    var l' := l.(open := l.open - {m});
    assert forall v: nat :: v < |l.moves| && !Moving(l, v) ==> !Moving(l', v);
  }

  lemma MarkedClean(f: Fixed, l: Lists, a: nat, b: nat)
    requires Clean(f, l) && a !in f.precolored && a < |l.moves| && b < |l.moves|
    ensures Clean(f, Marked(l, a, b))
  {
  }

  lemma SpillLess(f: Fixed, l: Lists, conflicts: seq<int>, nodes: set<nat>, a: nat, b: nat)
    requires a < |l.moves| && b < |l.moves|
    ensures Dropped(f, Marked(l, a, b), conflicts, nodes).spill <= l.spill
  {
  }

  lemma RemadeMoves(f: Fixed, l: Lists, w: View, conflicts: seq<int>, a: nat, b: nat)
    requires a < |w.arcs| && b < |w.arcs| && a < |l.moves| && b < |l.moves|
    ensures Remade(f, l, w, conflicts, a, b).moves == Handed(l.moves, a, b)
  {
    hide Handed, Bumped, MergedCounts, Adjacent;
  }

  lemma RemadeClean(f: Fixed, l: Lists, w: View, conflicts: seq<int>, a: nat, b: nat)
    requires Clean(f, l) && a !in f.precolored && a < |w.arcs| && b < |w.arcs| && a < |l.moves| && b < |l.moves|
    ensures Clean(f, Remade(f, l, w, conflicts, a, b))
  {
    hide Clean, Dropped, Marked, Left, MergedCounts, Bumped, Adjacent;
    MarkedClean(f, l, a, b);
    AllDroppedClean(f, Marked(l, a, b), Bumped(w, a, conflicts, Adjacent(w, b)), Adjacent(w, b));
    StepsClean(f, Dropped(f, Marked(l, a, b), Bumped(w, a, conflicts, Adjacent(w, b)), Adjacent(w, b)),
               MergedCounts(w, a, conflicts, Adjacent(w, b)), a);
  }

  lemma AllDroppedClean(f: Fixed, l: Lists, conflicts: seq<int>, nodes: set<nat>)
    requires Clean(f, l)
    ensures Clean(f, Dropped(f, l, conflicts, nodes))
  {
  }

  /** The moves of a node that is no longer to be frozen or spilled join no precoloured node. */
  lemma FrostedClean(f: Fixed, l: Lists, w: View, conflicts: seq<int>, v: nat, l': Lists)
    requires ListsOk(f, l, w, conflicts, {}, {}) && Clean(f, l) && (v in l.freeze || v in l.spill) && v < |l.moves|
    requires Frosted(f, Released(l, v), w, conflicts, v, l.open * l.moves[v], l')
    ensures Clean(f, l')
  {
    ListsApart(f, l, w, conflicts, {}, {});
    forall p | p in f.precolored ensures !Partner(f, w, v, l.open * l.moves[v], p) {
      PartnerClean(f, l, w, conflicts, v, p);
    }
    assert v !in f.precolored;
    hide ListsOk, Shape, Between;
    NonePartnered(f, l, w, conflicts, v, l');
  }

  lemma NonePartnered(f: Fixed, l: Lists, w: View, conflicts: seq<int>, v: nat, l': Lists)
    requires Clean(f, l) && v !in f.precolored && v < |l.moves|
    requires Frosted(f, Released(l, v), w, conflicts, v, l.open * l.moves[v], l')
    requires forall p :: p in f.precolored ==> !Partner(f, w, v, l.open * l.moves[v], p)
    ensures Clean(f, l')
  {
    hide Partner, Fewer;
    assert l'.open <= l.open && l'.moves == l.moves;
    forall p | p in f.precolored ensures !Moving(l', p) {
      LessOpen(l, l', p);
    }
  }

  lemma LessOpen(l: Lists, l': Lists, p: nat)
    requires l'.open <= l.open && l'.moves == l.moves && !Moving(l, p)
    ensures !Moving(l', p)
  {
    if p < |l.moves| {
      assert l'.open * l'.moves[p] <= l.open * l.moves[p];
    }
  }

  lemma PartnerClean(f: Fixed, l: Lists, w: View, conflicts: seq<int>, v: nat, p: nat)
    requires ListsOk(f, l, w, conflicts, {}, {}) && Clean(f, l) && v < |l.moves| && p in f.precolored
    ensures !Partner(f, w, v, l.open * l.moves[v], p)
  {
    hide Shape;
    if m :| m in l.open * l.moves[v] && m in f.ends && Between(w, f.ends[m]) && Other(f, w, v, m) == p {
      CloseClean(f, l, w, conflicts, m);
    }
  }

  lemma StillBuilt(f: Fixed, l: Lists, l': Lists, n: nat)
    requires MovesBuilt(f, l, n) && l'.open == l.open && l'.moves == l.moves
    ensures MovesBuilt(f, l', n)
  {
  }

  lemma BuiltClean(f: Fixed, l: Lists, n: nat)
    requires MovesBuilt(f, l, n) && l.simplify == l.freeze == l.spill == {}
    requires forall m :: m in f.ends ==> f.ends[m].0 !in f.precolored && f.ends[m].1 !in f.precolored
    ensures Clean(f, l)
  {
  }

  // ---------- at the start and at the end ----------

  /** The moves of each node are those with an end in it; nothing is merged yet. */
  ghost predicate MovesBuilt(f: Fixed, l: Lists, n: nat) {
    && |l.moves| == n && l.open <= f.ends.Keys
    && (forall m :: m in f.ends ==> f.ends[m].0 < n && f.ends[m].1 < n)
    && (forall v: nat, m :: v < n ==>
          (m in l.moves[v] <==> m in f.ends && (v == f.ends[m].0 || v == f.ends[m].1)))
  }

  /** The list for a node that is not precoloured. */
  function Placed(f: Fixed, l: Lists, conflicts: seq<int>, v: nat): Lists {
    if !Fewer(f, conflicts, v) then l.(spill := l.spill + {v})
    else if Moving(l, v) then l.(freeze := l.freeze + {v})
    else l.(simplify := l.simplify + {v})
  }

  lemma PlacedIs(f: Fixed, l: Lists, conflicts: seq<int>, v: nat)
    requires v < |f.avail| && v < |conflicts|
    ensures Placed(f, l, conflicts, v) ==
            if conflicts[v] >= f.avail[v] then Lists(l.simplify, l.freeze, l.spill + {v}, l.open, l.moves)
            else if Moving(l, v) then Lists(l.simplify, l.freeze + {v}, l.spill, l.open, l.moves)
            else Lists(l.simplify + {v}, l.freeze, l.spill, l.open, l.moves)
  {
  }

  /** While build_worklists puts the nodes before n on their lists. */
  ghost predicate Building(f: Fixed, l: Lists, w: View, conflicts: seq<int>, n: nat) {
    && Shape(w) && Sizes(f, l, w, conflicts) && w.stack == [] && w.merged == [] && n <= |w.arcs|
    && MovesBuilt(f, l, |w.arcs|)
    && Sorted(f, l, conflicts, n)
  }

  /** The nodes before n that are not precoloured are listed, each by its count and its
      moves. */
  ghost predicate Sorted(f: Fixed, l: Lists, conflicts: seq<int>, n: nat) {
    && (forall v: nat :: v in l.spill <==> v < n && v !in f.precolored && !Fewer(f, conflicts, v))
    && (forall v: nat :: v in l.freeze <==> v < n && v !in f.precolored && Fewer(f, conflicts, v) && Moving(l, v))
    && (forall v: nat :: v in l.simplify <==> v < n && v !in f.precolored && Fewer(f, conflicts, v) && !Moving(l, v))
  }

  lemma BuildStart(f: Fixed, l: Lists, w: View, conflicts: seq<int>)
    requires Shape(w) && |w.arcs| == |conflicts| == |f.avail| && w.stack == [] && w.merged == []
    requires MovesBuilt(f, l, |w.arcs|) && l.simplify == l.freeze == l.spill == {}
    ensures Building(f, l, w, conflicts, 0)
  {
    hide Shape;
  }

  lemma BuildStep(f: Fixed, l: Lists, w: View, conflicts: seq<int>, n: nat)
    requires Building(f, l, w, conflicts, n) && n < |w.arcs|
    ensures n < |f.avail| && n < |conflicts| && n < |l.moves|
    ensures Building(f, if n in f.precolored then l else Placed(f, l, conflicts, n), w, conflicts, n + 1)
  {
    hide Shape;
  }

  lemma BuildDone(f: Fixed, l: Lists, w: View, conflicts: seq<int>)
    requires Building(f, l, w, conflicts, |w.arcs|)
    ensures ListsOk(f, l, w, conflicts, {}, {}) && Sorted(f, l, conflicts, |w.arcs|)
  {
    hide Shape;
    assert forall v: nat :: v < |w.arcs| ==> Rep(w, v) == v;
  }

  /** With empty lists every node is precoloured, stacked or merged. */
  lemma NoneLeft(f: Fixed, l: Lists, w: View, conflicts: seq<int>)
    requires ListsOk(f, l, w, conflicts, {}, {}) && l.simplify == l.freeze == l.spill == {}
    ensures forall v: nat :: v < |w.arcs| ==> v in f.precolored || v in w.stack || v in w.merged
  {
  }
}
