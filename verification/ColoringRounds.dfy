/** The rounds of the loop of ra_colorize_graph (backend/ra-colorize.c) on values: which list
    each takes from and what it leaves. */
module ColoringRounds {
  import opened Coloring
  import opened ColoringLists
  import opened MpInt
  import opened SpillCost

  function LessOne(conflicts: seq<int>, nodes: set<nat>): seq<int> {
    seq(|conflicts|, v requires 0 <= v < |conflicts| => if v in nodes then conflicts[v] - 1 else conflicts[v])
  }

  /** The state between two rounds of the loop of ra_colorize_graph. */
  datatype Snapshot = Snapshot(w: View, l: Lists, conflicts: seq<int>, sets: MoveSets)

  /** What a round takes, and from which list. */
  datatype Pick = Simplified(f: nat) | Coalesced(mv: nat) | Frozen(f: nat) | Spilled(f: nat) | Nothing

  ghost predicate First(s: set<nat>, v: nat) {
    v in s && forall u :: u in s ==> v <= u
  }

  /** No other that may be spilled is cheaper, the first of equals; the first of all if none may. */
  ghost predicate Cheapest(orig: seq<int>, cost: seq<nat>, list: set<nat>, f: nat) {
    && |cost| == |orig| && f in list && f < |orig|
    && if exists i :: i in list && i < |orig| && orig[i] != NEVER then
         && orig[f] != NEVER
         && forall i :: i in list && i < |orig| && orig[i] != NEVER ==>
              cost[f] < cost[i] || (cost[f] == cost[i] && f <= i)
       else First(list, f)
  }

  /** A round takes from the first list that is not empty: nodes to be simplified, moves, nodes
      to be frozen, and only when nothing else is left a node that may have to be spilled. */
  ghost predicate Taken(orig: seq<int>, cost: seq<nat>, s: Snapshot, pick: Pick) {
    if s.l.simplify != {} then pick.Simplified? && First(s.l.simplify, pick.f)
    else if s.sets.work != {} then pick.Coalesced? && First(s.sets.work, pick.mv)
    else if s.l.freeze != {} then pick.Frozen? && First(s.l.freeze, pick.f)
    else if s.l.spill != {} then pick.Spilled? && Cheapest(orig, cost, s.l.spill, pick.f)
    else pick == Nothing
  }

  ghost predicate SimplifyStep(f: Fixed, s: Snapshot, v: nat, t: Snapshot) {
    && v < |s.w.arcs| && t.w == Pushed(s.w, v) && t.conflicts == LessOne(s.conflicts, Adjacent(s.w, v))
    && t.l == Dropped(f, s.l.(simplify := s.l.simplify - {v}), s.conflicts, Adjacent(s.w, v))
    && t.sets.active == s.sets.active - MovesOf(s.l.moves, Woken(f, Pushed(s.w, v), s.conflicts, Adjacent(s.w, v)))
    && t.sets.active + t.sets.work == s.sets.active + s.sets.work
  }

  ghost predicate CoalesceStep(f: Fixed, s: Snapshot, mv: nat, t: Snapshot) {
    && mv in f.ends && Between(s.w, f.ends[mv])
    && var (src, dst) := Turned(s.w, f.precolored, f.ends[mv]);
       && Decided(f, s.l.moves, s.w, s.conflicts, src, dst, mv, t.w, s.sets, t.sets)
       && Relisted(f, s.l, s.w, s.conflicts, src, dst, mv, t.l)
  }

  /** The node is to be simplified and its moves are given up. */
  ghost predicate ReleaseStep(f: Fixed, s: Snapshot, v: nat, t: Snapshot) {
    && v < |s.l.moves| && t.w == s.w && t.conflicts == s.conflicts
    && t.sets == s.sets.(active := t.l.open)
    && Frosted(f, Released(s.l, v), s.w, s.conflicts, v, s.sets.active * s.l.moves[v], t.l)
  }

  ghost predicate Stepped(f: Fixed, orig: seq<int>, cost: seq<nat>, s: Snapshot, pick: Pick, t: Snapshot) {
    && Taken(orig, cost, s, pick)
    && match pick
       case Simplified(v) => SimplifyStep(f, s, v, t)
       case Coalesced(mv) => CoalesceStep(f, s, mv, t)
       case Frozen(v) => ReleaseStep(f, s, v, t)
       case Spilled(v) => ReleaseStep(f, s, v, t)
       case Nothing => t == s
  }

  ghost predicate Rounds(f: Fixed, orig: seq<int>, cost: seq<nat>, run: seq<Snapshot>, picks: seq<Pick>) {
    |run| == |picks| + 1
    && forall k :: 0 <= k < |picks| ==> Stepped(f, orig, cost, run[k], picks[k], run[k + 1])
  }

  lemma NoRounds(f: Fixed, orig: seq<int>, cost: seq<nat>, s: Snapshot)
    ensures Rounds(f, orig, cost, [s], [])
  {
  }

  lemma OneRound(f: Fixed, orig: seq<int>, cost: seq<nat>, run: seq<Snapshot>, picks: seq<Pick>, pick: Pick,
                 t: Snapshot)
    requires Rounds(f, orig, cost, run, picks) && Stepped(f, orig, cost, run[|picks|], pick, t)
    ensures Rounds(f, orig, cost, run + [t], picks + [pick])
  {
    hide Stepped;
    forall k | 0 <= k < |picks + [pick]|
      ensures Stepped(f, orig, cost, (run + [t])[k], (picks + [pick])[k], (run + [t])[k + 1])
    {
      if k < |picks| {
        assert Stepped(f, orig, cost, run[k], picks[k], run[k + 1]);
      }
    }
  }

  /** A node is chosen for spilling only when nothing can be simplified, coalesced or frozen. */
  lemma SpilledLast(f: Fixed, orig: seq<int>, cost: seq<nat>, run: seq<Snapshot>, picks: seq<Pick>, k: nat)
    requires Rounds(f, orig, cost, run, picks) && k < |picks| && picks[k].Spilled?
    ensures run[k].l.simplify == run[k].sets.work == run[k].l.freeze == {}
    ensures Cheapest(orig, cost, run[k].l.spill, picks[k].f)
  {
    assert Stepped(f, orig, cost, run[k], picks[k], run[k + 1]);
  }

  ghost function Numbers(costs: seq<Mp>): (r: seq<nat>)
    requires forall i :: 0 <= i < |costs| ==> costs[i].Valid()
    reads set c | c in costs, set c | c in costs :: c.dp
    ensures Holds(costs, r)
  {
    seq(|costs|, i requires 0 <= i < |costs| && costs[i].Valid()
                   reads set c | c in costs, set c | c in costs :: c.dp => costs[i].Num())
  }

  lemma HoldsIs(costs: seq<Mp>, cost: seq<nat>)
    requires Holds(costs, cost)
    ensures |cost| == |costs| && forall i :: 0 <= i < |costs| ==> costs[i].Valid()
  {
  }

  lemma SimplifiedIs(f: Fixed, orig: seq<int>, cost: seq<nat>, s: Snapshot, v: nat, t: Snapshot)
    requires v in s.l.simplify && forall u :: u in s.l.simplify ==> v <= u
    requires v < |s.w.arcs| && t.w == Pushed(s.w, v) && t.conflicts == LessOne(s.conflicts, Adjacent(s.w, v))
    requires t.l == Dropped(f, s.l.(simplify := s.l.simplify - {v}), s.conflicts, Adjacent(s.w, v))
    requires t.sets.active ==
             s.sets.active - MovesOf(s.l.moves, Woken(f, Pushed(s.w, v), s.conflicts, Adjacent(s.w, v)))
    requires t.sets.active + t.sets.work == s.sets.active + s.sets.work
    ensures Stepped(f, orig, cost, s, Simplified(v), t)
  {
    hide LessOne, Dropped, Woken, MovesOf, Pushed, Adjacent;
  }

  lemma CoalescedIs(f: Fixed, orig: seq<int>, cost: seq<nat>, s: Snapshot, mv: nat, t: Snapshot)
    requires s.l.simplify == {} && mv in s.sets.work && forall m :: m in s.sets.work ==> mv <= m
    requires mv in f.ends && Between(s.w, f.ends[mv])
    requires var (src, dst) := Turned(s.w, f.precolored, f.ends[mv]);
             && Decided(f, s.l.moves, s.w, s.conflicts, src, dst, mv, t.w, s.sets, t.sets)
             && Relisted(f, s.l, s.w, s.conflicts, src, dst, mv, t.l)
    ensures Stepped(f, orig, cost, s, Coalesced(mv), t)
  {
    hide Decided, Relisted, Turned, Between;
  }

  lemma FrozenIs(f: Fixed, orig: seq<int>, cost: seq<nat>, s: Snapshot, v: nat, t: Snapshot)
    requires s.l.simplify == s.sets.work == {} && v in s.l.freeze && forall u :: u in s.l.freeze ==> v <= u
    requires v < |s.l.moves| && t.w == s.w && t.conflicts == s.conflicts && t.sets == s.sets.(active := t.l.open)
    requires Frosted(f, Released(s.l, v), s.w, s.conflicts, v, s.sets.active * s.l.moves[v], t.l)
    ensures Stepped(f, orig, cost, s, Frozen(v), t)
  {
    hide Frosted, Released;
  }

  lemma SpilledIs(f: Fixed, orig: seq<int>, cost: seq<nat>, s: Snapshot, v: nat, t: Snapshot)
    requires s.l.simplify == s.sets.work == s.l.freeze == {} && Cheapest(orig, cost, s.l.spill, v)
    requires v < |s.l.moves| && t.w == s.w && t.conflicts == s.conflicts && t.sets == s.sets.(active := t.l.open)
    requires Frosted(f, Released(s.l, v), s.w, s.conflicts, v, s.sets.active * s.l.moves[v], t.l)
    ensures Stepped(f, orig, cost, s, Spilled(v), t)
  {
    hide Frosted, Released;
  }

  lemma NothingIs(f: Fixed, orig: seq<int>, cost: seq<nat>, s: Snapshot)
    requires s.l.simplify == s.sets.work == s.l.freeze == s.l.spill == {}
    ensures Stepped(f, orig, cost, s, Nothing, s)
  {
  }

  /** The choice on the numbers that the costs stand for. */
  lemma CheapestIs(costs: seq<Mp>, cost: seq<nat>, orig: seq<int>, list: set<nat>, f: nat)
    requires Holds(costs, cost) && |orig| == |costs| && f in list && f < |costs|
    requires (exists i :: i in list && Spillable(orig, i)) ==>
               && Spillable(orig, f)
               && forall i :: i in list && Spillable(orig, i) && i < |costs| ==> Preferred(costs[f], costs[i], f <= i)
    requires !(exists i :: i in list && Spillable(orig, i)) ==> forall i :: i in list ==> f <= i
    ensures Cheapest(orig, cost, list, f)
  {
    hide Mp.Valid, Mp.Num;
    if exists i :: i in list && i < |orig| && orig[i] != NEVER {
      var i :| i in list && i < |orig| && orig[i] != NEVER;
      assert Spillable(orig, i);
    }
  }

  /** What is left to be done: live nodes, nodes that wait, moves to be looked at. */
  datatype Todo = Todo(live: set<nat>, waiting: set<nat>, moves: set<nat>)

  ghost predicate Nearer(a: Todo, b: Todo) {
    b.live < a.live
    || (b.live == a.live && (b.waiting < a.waiting || (b.waiting == a.waiting && b.moves < a.moves)))
  }

  /** A round that finds all lists empty leaves them so. */
  lemma NothingLeft(f: Fixed, orig: seq<int>, cost: seq<nat>, s: Snapshot, pick: Pick,
                    t: Snapshot)
    requires Stepped(f, orig, cost, s, pick, t)
    ensures pick == Nothing ==> t.l.simplify == t.sets.work == t.l.freeze == t.l.spill == {}
  {
  }

  lemma NearerIs(a: Todo, b: Todo)
    requires Nearer(a, b)
    ensures b.live < a.live
            || (b.live == a.live && (b.waiting < a.waiting || (b.waiting == a.waiting && b.moves < a.moves)))
  {
  }

  lemma NodeLess(a: Todo, b: Todo, v: nat)
    requires v in a.live && b.live == a.live - {v}
    ensures Nearer(a, b)
  {
  }

  lemma MoveLess(a: Todo, b: Todo, mv: nat)
    requires a.live == b.live && b.waiting <= a.waiting && mv in a.moves && b.moves == a.moves - {mv}
    ensures Nearer(a, b)
  {
  }

  lemma ListLess(a: Todo, b: Todo, v: nat)
    requires a.live == b.live && b.waiting <= a.waiting - {v} && v in a.waiting
    ensures Nearer(a, b)
  {
  }
}
