/** Linear-scan register allocation with eviction (backend/linearscan.c). */
module LinearScan {
  import opened Ranges
  import opened ScanState
  import opened ScanRun

  // ---------- the allocator ----------

  class Allocator {
    const classes: seq<RegClass>
    const fixed: seq<seq<Range>>
    const constants: set<int>
    var regs: seq<OpReg>
    var used: seq<set<nat>>
    var usedNum: seq<nat>
    var active: seq<seq<nat>>
    var spilled: seq<nat>

    ghost predicate Counts()
      reads this
    {
      |usedNum| == |active| && forall c :: 0 <= c < |active| ==> usedNum[c] == |active[c]|
    }

    ghost function State(): Scan
      reads this
    {
      Scan(regs, used, active, spilled)
    }

    ghost predicate Valid(n: nat)
      reads this
    {
      && Scanned(classes, regs, used, active, n) && Counts() && SpilledAre(regs, spilled, n)
      && FixedOk(classes, fixed, regs) && AllSafe(fixed, regs, n)
    }

    constructor (classes: seq<RegClass>, fixed: seq<seq<Range>>, constants: set<int>, regs: seq<OpReg>)
      requires classes != [] && BeginsSorted(regs) && FixedOk(classes, fixed, regs)
      requires forall a :: 0 <= a < |regs| ==> 0 < regs[a].cls < |classes|
      ensures Valid(0) && this.classes == classes && this.fixed == fixed && this.constants == constants
      ensures this.regs == regs && spilled == []
      ensures |active| == |classes| && forall c :: 0 <= c < |active| ==> active[c] == []
    {
      this.classes, this.fixed, this.constants, this.regs := classes, fixed, constants, regs;
      used, usedNum, active := seq(|classes|, c => {}), seq(|classes|, c => 0), seq(|classes|, c => []);
      spilled := [];
      new;
      NothingScanned(classes, regs, used, active);
    }

    /** free_reg. */
    method FreeReg(a: nat)
      requires a < |regs| && regs[a].cls < |usedNum| == |used| && usedNum[regs[a].cls] > 0 && regs[a].hard >= 0
      modifies this`usedNum, this`used
      ensures usedNum == old(usedNum)[regs[a].cls := old(usedNum)[regs[a].cls] - 1]
      ensures used == old(used)[regs[a].cls := old(used)[regs[a].cls] - {regs[a].hard}]
    {
      var cl, ret := regs[a].cls, regs[a].hard;
      usedNum := usedNum[cl := usedNum[cl] - 1];
      var bit: nat := ret;
      used := used[cl := used[cl] - {bit}];
    }

    /** expire_old_intervals: from the end of each active list, as long as the last one is
        over. One that is over can stay only when exactly two are active. */
    method Expire(n: nat)
      requires Valid(n) && n < |regs|
      modifies this`used, this`usedNum, this`active
      ensures Valid(n)
      ensures |active| == |old(active)| && forall c :: 0 <= c < |active| ==>
                Expired(regs, active[c], n) && active[c] == StillActive(regs, old(active)[c], n)
    {
      hide Scanned, FixedOk, AllSafe, SpilledAre, Expired, StillActive;
      var c := 0;
      ScannedLengths(classes, regs, used, active, n);
      while c < |classes|
        invariant 0 <= c <= |classes| && Valid(n) && |active| == |old(active)| == |classes|
        invariant forall d :: 0 <= d < c ==>
                    Expired(regs, active[d], n) && active[d] == StillActive(regs, old(active)[d], n)
        invariant forall d :: c <= d < |active| ==> active[d] == old(active)[d]
      {
        ExpireClass(n, c);
        c := c + 1;
      }
    }

    method ExpireClass(n: nat, c: nat)
      requires Valid(n) && n < |regs| && c < |classes| == |active|
      modifies this`used, this`usedNum, this`active
      ensures Valid(n) && |active| == |old(active)|
      ensures (forall d :: 0 <= d < |active| && d != c ==> active[d] == old(active)[d])
      ensures Expired(regs, active[c], n) && active[c] == StillActive(regs, old(active)[c], n)
    {
      hide Scanned, FixedOk, AllSafe, SpilledAre;
      ScannedLengths(classes, regs, used, active, n);
      while usedNum[c] > 0
        invariant Valid(n) && |active| == |old(active)| == |classes| == |used|
        invariant (forall d :: 0 <= d < |active| && d != c ==> active[d] == old(active)[d])
        invariant StillActive(regs, active[c], n) == StillActive(regs, old(active)[c], n)
        decreases usedNum[c]
      {
        ListAt(classes, regs, used, active, n, c);
        var a := active[c][usedNum[c] - 1];
        if regs[a].end > regs[n].begin {
          LastIsEarliest(classes, regs, used, active, n, c);
          return;
        }
        RetireKeeps(classes, regs, used, active, n, c);
        FreeReg(a);
        active := active[c := active[c][..usedNum[c]]];
        ScannedLengths(classes, regs, used, active, n);
      }
    }

    /** try_alloc_reg: the first register of the class that is not in use and whose fixed
        ranges the interval does not meet. */
    method TryAlloc(n: nat) returns (ret: int)
      requires Valid(n) && n < |regs| && 0 < regs[n].cls < |usedNum| == |used| == |classes| == |active|
      modifies this`regs, this`used, this`usedNum
      ensures ret < 0 ==> unchanged(this) && AllRefused(classes[regs[n].cls], fixed, regs, active[regs[n].cls], n)
      ensures ret >= 0 ==>
                FirstFree(classes[old(regs)[n].cls], fixed, old(regs), active[old(regs)[n].cls], n, ret)
      ensures var c := old(regs)[n].cls;
              ret >= 0 ==>
                && regs == old(regs)[n := old(regs)[n].(hard := ret)] && Safe(fixed, regs[n])
                && classes[c].nextAvail <= ret < classes[c].maxNum && ret !in old(used)[c]
                && usedNum == old(usedNum)[c := old(usedNum)[c] + 1] && used == old(used)[c := old(used)[c] + {ret}]
    {
      hide Scanned, Disjoint, Sorted, NoEmpty, AllSafe, Meet, SpilledAre;
      var cl := regs[n].cls;
      UsedIs(classes, regs, used, active, n, cl);
      ret := -1;
      if usedNum[cl] < classes[cl].maxNum - classes[cl].nextAvail {
        var i: nat := classes[cl].nextAvail;
        while i < classes[cl].maxNum
          modifies {}
          invariant classes[cl].nextAvail <= i <= classes[cl].maxNum
          invariant forall h: nat :: classes[cl].nextAvail <= h < i ==> Refused(fixed, regs, active[cl], n, h)
        {
          if i !in used[cl] {
            assert Sorted([Range(regs[n].begin, regs[n].end)]) by {
              OneSorted(regs[n].begin, regs[n].end);
            }
            var at := IntersectsAt(fixed[i], [Range(regs[n].begin, regs[n].end)]);
            if at == -1 {
              CommonMeet(fixed[i], [Range(regs[n].begin, regs[n].end)]);
              break;
            }
          }
          i := i + 1;
        }
        if i == classes[cl].maxNum {
          return;
        }
        usedNum := usedNum[cl := usedNum[cl] + 1];
        ret := i;
        used := used[cl := used[cl] + {i}];
        regs := regs[n := regs[n].(hard := i)];
      } else {
        AllInUse(classes, regs, used, active, n, cl);
      }
    }

    /** An interval of the class whose spill has a price. */
    predicate Spillable(a: nat, onlyConstants: bool)
      requires a < |regs|
      reads this`regs
    {
      regs[a].weight != NEVER && (!onlyConstants || regs[a].order in constants)
    }

    predicate Longer(a: nat, n: nat)
      requires a < |regs| && n < |regs|
      reads this`regs
    {
      regs[a].end > regs[n].end
    }

    /** The first two search loops of spill_at_interval; the length of the list if they find
        nothing. */
    method SearchLonger(n: nat, c: nat, onlyConstants: bool) returns (k: nat)
      requires n < |regs| && c < |active| && |usedNum| == |active| && usedNum[c] == |active[c]|
      requires InRange(regs, active[c])
      ensures k < |active[c]| ==> FirstBefore(constants, regs, active[c], n, onlyConstants, k)
      ensures k >= |active[c]| ==> k == |active[c]| && forall i: nat ::
                !FirstBefore(constants, regs, active[c], n, onlyConstants, i)
    {
      k := 0;
      while usedNum[c] > k && Longer(active[c][k], n)
        invariant 0 <= k <= |active[c]|
        invariant forall i: nat :: i < k ==>
                    !Candidate(constants, regs, active[c], onlyConstants, i) && regs[active[c][i]].end > regs[n].end
      {
        if Spillable(active[c][k], onlyConstants) {
          return;
        }
        k := k + 1;
      }
      k := |active[c]|;
    }

    /** The third one. */
    method SearchAny(c: nat) returns (k: nat)
      requires c < |active| && |usedNum| == |active| && usedNum[c] == |active[c]| && InRange(regs, active[c])
      ensures k <= |active[c]| && (k < |active[c]| ==> Candidate(constants, regs, active[c], false, k))
      ensures forall i: nat :: i < k ==> !Candidate(constants, regs, active[c], false, i)
    {
      k := 0;
      while usedNum[c] > k
        invariant 0 <= k <= |active[c]|
        invariant forall i: nat :: i < k ==> !Candidate(constants, regs, active[c], false, i)
      {
        if Spillable(active[c][k], false) {
          return;
        }
        k := k + 1;
      }
    }

    /** The choice of spill_at_interval: an active interval, none at all, or n itself. */
    method Choose(n: nat, c: nat) returns (k: nat, itself: bool)
      requires n < |regs| && c < |active| && |usedNum| == |active| && usedNum[c] == |active[c]|
      requires InRange(regs, active[c])
      ensures itself <==> Itself(constants, regs, active[c], n)
      ensures !itself && k < |active[c]| ==> Victim(constants, regs, active[c], n, k)
      ensures !itself && k >= |active[c]| ==> regs[n].weight == NEVER && forall i: nat ::
                !Candidate(constants, regs, active[c], false, i)
    {
      hide FirstBefore;
      itself := false;
      k := SearchLonger(n, c, true);
      if k == |active[c]| {
        k := SearchLonger(n, c, false);
        if k == |active[c]| {
          if regs[n].weight != NEVER {
            itself := true;
          } else {
            k := SearchAny(c);
          }
        }
      } else {
        SomeBefore(constants, regs, active[c], n, k);
      }
    }

    /** spill_at_interval, right after the intervals that are over have been expired; without
        any candidate the source would use a stale entry. Interval n is safe in the register
        of its victim exactly when the part of n after the victim meets no fixed range. */
    method SpillAtInterval(n: nat) returns (cand: nat, ok: bool)
      requires Valid(n) && n < |regs| && 0 < regs[n].cls < |classes| == |active|
      requires InRange(regs, active[regs[n].cls])
      modifies this`regs, this`active
      ensures !ok ==> unchanged(this) && regs[n].weight == NEVER && forall a ::
                a in old(active)[old(regs)[n].cls] && a < |regs| ==> regs[a].weight == NEVER
      ensures ok ==> cand <= n && old(regs)[cand].weight != NEVER && old(regs)[cand].cls == old(regs)[n].cls
      ensures ok ==> (cand == n <==> Itself(constants, old(regs), old(active)[old(regs)[n].cls], n))
      ensures ok && cand == n ==> regs == old(regs)[n := old(regs)[n].(cls := 0)] && active == old(active)
      ensures ok && cand != n ==> cand in old(active)[old(regs)[n].cls] && regs == Evicted(old(regs), n, cand)
      ensures ok && cand != n ==>
                var c := old(regs)[n].cls;
                && |active| == |old(active)|
                     && (forall d :: 0 <= d < |active| && d != c ==> active[d] == old(active)[d])
                && exists k: nat ::
                     && k < |old(active)[c]| && old(active)[c][k] == cand
                     && Victim(constants, old(regs), old(active)[c], n, k)
                     && Sorts(regs, Replaced(old(active)[c], k, n), active[c])
      ensures ok && cand != n ==> old(regs)[cand].end > old(regs)[n].end || old(regs)[n].weight == NEVER
      ensures ok && cand != n ==> 0 <= old(regs)[cand].hard < |fixed| && (Safe(fixed, regs[n]) <==>
                Disjoint(fixed[old(regs)[cand].hard],
                         [Range(Max(old(regs)[n].begin, old(regs)[cand].end), old(regs)[n].end)]))
      ensures ok && cand != n && Expired(old(regs), old(active)[old(regs)[n].cls], n) ==>
                regs[n].end == regs[n].begin + 1 ==>
                (!Safe(fixed, regs[n]) <==>
                 && |old(active)[old(regs)[n].cls]| == 2 && old(active)[old(regs)[n].cls][0] == cand
                 && regs[cand].end <= regs[n].begin && Covers(fixed[regs[n].hard], regs[n].begin))
      ensures ok ==> Scanned(classes, regs, used, active, n + 1) && AllSafe(fixed, regs, n + 1) && Counts()
    {
      hide Scanned, FixedOk, AllSafe, PartlySorted, ScannedBut, ListOk, Once, Disjoint, Victim, Itself, Candidate;
      hide Sorts;
      var c := regs[n].cls;
      ListAt(classes, regs, used, active, n, c);
      ListFits(classes, regs, used, active, n);
      var k, itself := Choose(n, c);
      cand, ok := n, true;
      if itself {
        ItselfMay(constants, regs, active[c], n);
        SpillKeeps(classes, regs, used, active, n);
        SpillSafe(fixed, regs, n);
        regs := regs[n := regs[n].(cls := 0)];
      } else {
        if k < |active[c]| {
          cand := active[c][k];
          VictimFacts(constants, regs, active[c], n, k);
          EvictKeeps(classes, regs, used, active, n, k);
          EvictAllSafe(fixed, regs, n, cand);
          EvictSafe(fixed, regs, n, cand);
          if Expired(regs, active[c], n) && regs[n].end == regs[n].begin + 1 {
            EvictOnePosition(fixed, regs, active[c], n, k);
          }
          hide Expired;
          ReplaceVictim(n, c, k);
        } else {
          NoCandidates(constants, regs, active[c]);
          ok := false;
        }
      }
    }

    /** The tail of spill_at_interval: n takes register and place of the victim. */
    method ReplaceVictim(n: nat, c: nat, k: nat)
      requires n < |regs| && c < |active| == |classes| && k < |active[c]| && active[c][k] < n && c > 0
      requires regs[n].cls == c && Counts()
      requires ScannedBut(classes, Evicted(regs, n, active[c][k]), used, active[c := Replaced(active[c], k, n)], n + 1,
                 c) && |used| == |classes|
      requires ListOk(classes[c], Evicted(regs, n, active[c][k]), used[c], Replaced(active[c], k, n), c, n + 1)
      requires regs[active[c][k]].cls == c
      modifies this`regs, this`active
      ensures regs == Evicted(old(regs), n, old(active[c][k])) && Counts() && |active| == |old(active)|
      ensures forall d :: 0 <= d < |active| && d != c ==> active[d] == old(active)[d]
      ensures Sorts(regs, Replaced(old(active)[c], k, n), active[c])
      ensures Scanned(classes, regs, used, active, n + 1)
    {
      hide Scanned, PartlySorted, ScannedBut, ListOk, Once;
      var cand := active[c][k];
      ghost var places, evicted := active[c := Replaced(active[c], k, n)], Evicted(regs, n, cand);
      regs := regs[n := regs[n].(cls := regs[cand].cls, hard := regs[cand].hard)];
      var list := Replaced(active[c], k, n);
      regs := regs[cand := regs[cand].(cls := 0)];
      assert regs == evicted;
      ListInRange(classes[c], regs, used[c], list, c, n + 1);
      var sorted := BubbleSort(regs, list);
      SortKeeps(classes, regs, used, places, n + 1, c, sorted);
      assert places[c := sorted] == active[c := sorted];
      active := active[c := sorted];
    }

    /** One interval of the main loop. */
    method Step(n: nat) returns (ok: bool)
      requires Valid(n) && n < |regs|
      modifies this
      ensures Kept(old(regs), regs) && (ok ==> Valid(n + 1))
      ensures ok ==> Stepped(classes, fixed, constants, old(State()), n, State())
      ensures !ok ==> regs == old(regs) && regs[n].weight == NEVER && Stuck(classes, fixed, old(State()), n)
    {
      hide Scanned, FixedOk, AllSafe, PartlySorted, ScannedBut, ListOk, Once, SpilledAre, Kept, StillActive, Expired;
      hide AllRefused, FirstFree, Victim, Itself, Sorts;
      Expire(n);
      ListFits(classes, regs, used, active, n);
      var cl := regs[n].cls;
      assert cl > 0 by {
        NextUnspilled(regs, spilled, n);
      }
      ghost var regs0 := regs;
      KeptSelf(regs0);
      var ret := -1;
      ret := TryAllocAndSort(n);
      ok := true;
      if ret < 0 {
        ExpiredInRange(regs, active[cl], n);
        var cand;
        cand, ok := SpillAtInterval(n);
        if ok {
          SpillRest(classes, fixed, regs0, spilled, n, cand, regs);
          spilled := spilled + [cand];
        }
      } else {
        FreeNotAll(classes[cl], fixed, regs0, StillActive(regs0, old(active)[cl], n), n, ret);
      }
    }

    /** A register for interval n, which then becomes active. */
    method TryAllocAndSort(n: nat) returns (ret: int)
      requires Valid(n) && n < |regs| && 0 < regs[n].cls < |usedNum| == |used| == |classes| == |active|
      modifies this`regs, this`used, this`usedNum, this`active
      ensures ret < 0 ==> unchanged(this) && AllRefused(classes[regs[n].cls], fixed, regs, active[regs[n].cls], n)
      ensures ret >= 0 ==> Valid(n + 1) && Kept(old(regs), regs) && spilled == old(spilled)
      ensures var c := old(regs)[n].cls;
              ret >= 0 ==>
                && FirstFree(classes[c], fixed, old(regs), old(active)[c], n, ret)
                && regs == old(regs)[n := old(regs)[n].(hard := ret)] && Safe(fixed, regs[n])
                && used == old(used)[c := old(used)[c] + {ret}] && |active| == |old(active)|
                && (forall d :: 0 <= d < |active| && d != c ==> active[d] == old(active)[d])
                && Sorts(regs, old(active)[c] + [n], active[c])
                && (|old(active)[c]| < 2 ==> active == old(active)[c := old(active)[c] + [n]])
    {
      hide Scanned, FixedOk, AllSafe, PartlySorted, ScannedBut, ListOk, Once, SpilledAre, Kept, Safe;
      var cl := regs[n].cls;
      ghost var regs0, used0 := regs, used;
      ret := TryAlloc(n);
      if ret >= 0 {
        AllocKeeps(classes, regs0, used0, active, n, ret);
        AllocSafe(fixed, regs0, n, regs);
        AllocRest(classes, fixed, regs0, spilled, n, regs);
        ghost var active0 := active[cl := active[cl] + [n]];
        ListInRange(classes[cl], regs, used[cl], active[cl] + [n], cl, n + 1);
        var sorted := BubbleSort(regs, active[cl] + [n]);
        SortKeeps(classes, regs, used, active0, n + 1, cl, sorted);
        assert active0[cl := sorted] == active[cl := sorted];
        active := active[cl := sorted];
      }
    }

    /** The main loop over the virtual registers, sorted by the beginning of their ranges. It
        succeeds unless some interval that must not be spilled finds nothing else to spill. */
    method Allocate() returns (ok: bool, ghost run: seq<Scan>)
      requires Valid(0)
      modifies this
      ensures Kept(old(regs), regs)
      ensures IsRun(classes, fixed, constants, run) && run[0] == old(State()) && |run| <= |regs| + 1
      ensures ok ==> |run| == |regs| + 1 && run[|regs|] == State()
      ensures !ok ==> Stuck(classes, fixed, run[|run| - 1], |run| - 1)
      ensures old(spilled) == [] && (forall a: nat :: a < |regs| ==> Roomy(classes, fixed, old(regs), a)) ==>
                ok && spilled == []
      ensures ok ==>
                Placed(classes, fixed, regs) && (forall a: nat :: a < |regs| ==> (regs[a].cls == 0 <==> a in spilled))
      ensures !ok ==> exists a :: 0 <= a < |regs| && regs[a].weight == NEVER
    {
      hide Scanned, FixedOk, AllSafe, Placed, Kept, Stepped, IsRun, Stuck, Roomy;
      KeptSelf(regs);
      ClassesOk(classes, fixed, regs);
      run := [State()];
      RunStarts(classes, fixed, constants, State());
      var n := 0;
      while n < |regs|
        invariant 0 <= n <= |regs| == |old(regs)| && Valid(n) && Kept(old(regs), regs)
        invariant IsRun(classes, fixed, constants, run) && |run| == n + 1 && run[0] == old(State()) && run[n] == State()
        decreases |old(regs)| - n
      {
        ghost var before := regs;
        ok := Step(n);
        KeptLength(before, regs);
        KeptTwice(old(regs), before, regs);
        if !ok {
          if old(spilled) == [] && forall a: nat :: a < |regs| ==> Roomy(classes, fixed, old(regs), a) {
            NoneSpilled(classes, fixed, constants, run, n);
          }
          return;
        }
        RunMore(classes, fixed, constants, run, State());
        run := run + [State()];
        n := n + 1;
      }
      if old(spilled) == [] && forall a: nat :: a < |regs| ==> Roomy(classes, fixed, old(regs), a) {
        NoneSpilled(classes, fixed, constants, run, n);
      }
      ScannedPlaced(classes, fixed, regs, used, active);
      ok := true;
    }
  }

  lemma ExpiredInRange(regs: seq<OpReg>, list: seq<nat>, n: nat)
    requires n < |regs| && Expired(regs, list, n)
    ensures InRange(regs, list)
  {
  }

  lemma ClassesOk(classes: seq<RegClass>, fixed: seq<seq<Range>>, regs: seq<OpReg>)
    requires FixedOk(classes, fixed, regs)
    ensures forall c :: 0 <= c < |classes| ==> classes[c].nextAvail <= classes[c].maxNum
  {
  }

  // ---------- a fixed range that is missed ----------

  const EARLY := OpReg(0, 0, 2, 1, 0, 1)
  const LONG := OpReg(1, 1, 10, 1, 0, 1)
  const LATE := OpReg(2, 5, 6, 1, 0, NEVER)
  const ONE_CLASS := [RegClass(0, 0), RegClass(0, 2)]
  const ONE_FIXED: seq<seq<Range>> := [[Range(5, 6)], []]

  ghost predicate RunsOnce(run: seq<Scan>) {
    && IsRun(ONE_CLASS, ONE_FIXED, {}, run) && |run| <= 4
    && run[0] == Scan([EARLY, LONG, LATE], run[0].used, [[], []], [])
    && (|run| < 4 ==> Stuck(ONE_CLASS, ONE_FIXED, run[|run| - 1], |run| - 1))
  }

  lemma InTwo(a: nat, b: nat)
    ensures forall x :: x in [a, b] <==> x == a || x == b
    ensures forall x :: x in [a] <==> x == a
  {
  }

  lemma NothingMet(lo: int, hi: int)
    requires hi <= 5
    ensures !Meet([Range(5, 6)], [Range(lo, hi)]) && !Meet([], [Range(lo, hi)])
  {
  }

  /** The first interval gets register 0. */
  lemma EarlyPlaced(s: Scan, s': Scan)
    requires s.regs == [EARLY, LONG, LATE] && s.active == [[], []] && Stepped(ONE_CLASS, ONE_FIXED, {}, s, 0, s')
    ensures s'.regs == [EARLY, LONG, LATE] && s'.active == [[], [0]]
  {
    var none: seq<nat> := [];
    assert StillActive(s.regs, none, 0) == none;
    NothingMet(0, 2);
    assert !Refused(ONE_FIXED, s.regs, none, 0, 0);
    assert OfClass(RegClass(0, 2), 0);
    assert none + [0] == [0];
    assert s'.active == [s'.active[0], s'.active[1]];
  }

  /** The second one overlaps it and gets register 1. */
  lemma LongPlaced(s: Scan, s': Scan)
    requires s.regs == [EARLY, LONG, LATE] && s.active == [[], [0]] && Stepped(ONE_CLASS, ONE_FIXED, {}, s, 1, s')
    ensures s'.regs == [EARLY, LONG.(hard := 1), LATE] && s'.active == [[], [0, 1]]
  {
    var none: seq<nat> := [];
    assert StillActive(s.regs, none, 1) == none && StillActive(s.regs, [0], 1) == [0];
    InTwo(0, 1);
    assert InUse(s.regs, [0], 0) by { assert s.regs[0].hard == 0; }
    assert !InUse(s.regs, [0], 1);
    assert !Meet(ONE_FIXED[1], [Range(1, 10)]);
    assert !Refused(ONE_FIXED, s.regs, [0], 1, 1) && Refused(ONE_FIXED, s.regs, [0], 1, 0);
    assert OfClass(RegClass(0, 2), 1);
    assert [0] + [1] == [0, 1];
    assert s'.active == [s'.active[0], s'.active[1]];
  }

  /** There is no third register; the first interval is the victim. */
  lemma LateTakesOver(s: Scan, s': Scan)
    requires s.regs == [EARLY, LONG.(hard := 1), LATE] && s.active == [[], [0, 1]]
    requires Stepped(ONE_CLASS, ONE_FIXED, {}, s, 2, s')
    ensures s'.regs == [EARLY.(cls := 0), LONG.(hard := 1), LATE]
  {
    var list := [0, 1];
    assert StillActive(s.regs, list, 2) == list;
    BothUsed(s.regs);
    assert AllRefused(RegClass(0, 2), ONE_FIXED, s.regs, list, 2);
    assert !Itself({}, s.regs, list, 2);
    EarlyIsVictim(s.regs);
    assert Evicted(s.regs, 2, 0) == [EARLY.(cls := 0), LONG.(hard := 1), LATE];
  }

  lemma BothUsed(regs: seq<OpReg>)
    requires regs == [EARLY, LONG.(hard := 1), LATE]
    ensures forall h: nat :: OfClass(RegClass(0, 2), h) ==> InUse(regs, [0, 1], h)
  {
    InTwo(0, 1);
    assert regs[0].hard == 0 && regs[1].hard == 1;
  }

  lemma EarlyIsVictim(regs: seq<OpReg>)
    requires regs == [EARLY, LONG.(hard := 1), LATE]
    ensures forall k: nat :: Victim({}, regs, [0, 1], 2, k) ==> k == 0
  {
    var list := [0, 1];
    assert regs[list[0]].end <= regs[2].end;
    assert forall i: nat, c: bool :: !FirstBefore({}, regs, list, 2, c, i);
    assert Candidate({}, regs, [0, 1], false, 0);
  }

  lemma NotStuck(s: Scan, n: nat)
    requires n < 3 && s.regs == [EARLY, if n == 2 then LONG.(hard := 1) else LONG, LATE]
    requires s.active == [[], if n == 0 then [] else if n == 1 then [0] else [0, 1]]
    ensures !Stuck(ONE_CLASS, ONE_FIXED, s, n)
  {
    if n == 2 {
      var list := [0, 1];
      assert StillActive(s.regs, list, 2) == list;
      assert list[0] in list && s.regs[0].weight != NEVER;
    }
  }

  lemma EndsLate(run: seq<Scan>)
    requires RunsOnce(run)
    ensures |run| == 4 && run[3].regs == [EARLY.(cls := 0), LONG.(hard := 1), LATE]
  {
    hide Stepped, Scanned, Stuck;
    NotStuck(run[0], 0);
    EarlyPlaced(run[0], run[1]);
    NotStuck(run[1], 1);
    LongPlaced(run[1], run[2]);
    NotStuck(run[2], 2);
    LateTakesOver(run[2], run[3]);
  }

  /** An input on which the scan puts an interval that must not be spilled into a register that
      is fixed while it lasts. There are two registers, the first of which is fixed at position
      5; the first interval is over when the third one starts there, but as one of exactly two
      it stays in the list, comes first, and is the victim. */
  method FixedRangeMissed() returns (s: Allocator)
    ensures fresh(s) && s.classes == ONE_CLASS && s.fixed == ONE_FIXED && s.constants == {}
    ensures s.regs == [EARLY.(cls := 0), LONG.(hard := 1), LATE] && !Safe(s.fixed, s.regs[2])
  {
    s := new Allocator(ONE_CLASS, ONE_FIXED, {}, [EARLY, LONG, LATE]);
    assert s.active == [[], []];
    hide Scanned, FixedOk, AllSafe, SpilledAre, Stepped, Stuck, IsRun, Roomy, Placed;
    var ok, run := s.Allocate();
    EndsLate(run);
    CoversOne(5, 6, 5);
  }

  lemma KeptSelf(regs: seq<OpReg>)
    ensures Kept(regs, regs)
  {
  }

  lemma KeptLength(before: seq<OpReg>, after: seq<OpReg>)
    requires Kept(before, after)
    ensures |before| == |after|
  {
  }

  lemma NextUnspilled(regs: seq<OpReg>, spilled: seq<nat>, n: nat)
    requires SpilledAre(regs, spilled, n) && n < |regs|
    ensures regs[n].cls > 0
  {
  }

  lemma OneSorted(from: int, to: int)
    requires 0 <= from <= to
    ensures Sorted([Range(from, to)])
  {
  }

  lemma SpillSafe(fixed: seq<seq<Range>>, regs: seq<OpReg>, n: nat)
    requires AllSafe(fixed, regs, n) && n < |regs|
    ensures AllSafe(fixed, regs[n := regs[n].(cls := 0)], n + 1)
  {
    OthersSafe(fixed, regs, n, regs[n := regs[n].(cls := 0)]);
  }

  lemma AllocSafe(fixed: seq<seq<Range>>, regs: seq<OpReg>, n: nat, regs': seq<OpReg>)
    requires AllSafe(fixed, regs, n) && n < |regs| && |regs'| == |regs| && regs' == regs[n := regs'[n]]
    requires Safe(fixed, regs'[n])
    ensures AllSafe(fixed, regs', n + 1)
  {
    OthersSafe(fixed, regs, n, regs');
    SafeNow(fixed, regs', n);
  }

  lemma OthersSafe(fixed: seq<seq<Range>>, regs: seq<OpReg>, n: nat, regs': seq<OpReg>)
    requires AllSafe(fixed, regs, n) && n < |regs| && |regs'| == |regs| && regs' == regs[n := regs'[n]]
    ensures AllSafe(fixed, regs', n)
  {
    hide Safe, Disjoint;
    forall a: nat | a < n && regs'[a].cls != 0 ensures SafeOrLate(fixed, regs', a) {
      assert SafeOrLate(fixed, regs, a);
      if v: nat :| Late(fixed, regs, a, v) {
        assert Late(fixed, regs', a, v);
      }
      SafeNow(fixed, regs', a);
    }
  }
}
