/** What one step of the linear scan does, said of values, and what follows for a whole run
    (backend/linearscan.c). */
module ScanRun {
  import opened Ranges
  import opened ScanState

  datatype Scan = Scan(regs: seq<OpReg>, used: seq<set<nat>>, active: seq<seq<nat>>, spilled: seq<nat>)

  /** A register of the class. */
  ghost predicate OfClass(cl: RegClass, h: nat) {
    cl.nextAvail <= h < cl.maxNum
  }

  ghost predicate InUse(regs: seq<OpReg>, list: seq<nat>, h: nat) {
    exists a :: a in list && a < |regs| && regs[a].hard == h
  }

  /** Interval n cannot have register h: an active interval has it, or n meets a range that is
      fixed to it. */
  ghost predicate Refused(fixed: seq<seq<Range>>, regs: seq<OpReg>, list: seq<nat>, n: nat, h: nat)
    requires n < |regs|
  {
    InUse(regs, list, h) || (h < |fixed| && Meet(fixed[h], [Range(regs[n].begin, regs[n].end)]))
  }

  ghost predicate AllRefused(cl: RegClass, fixed: seq<seq<Range>>, regs: seq<OpReg>, list: seq<nat>, n: nat)
    requires n < |regs|
  {
    forall h: nat :: OfClass(cl, h) ==> Refused(fixed, regs, list, n, h)
  }

  /** The first register that n can have. */
  ghost predicate FirstFree(cl: RegClass, fixed: seq<seq<Range>>, regs: seq<OpReg>, list: seq<nat>, n: nat, h: nat)
    requires n < |regs|
  {
    && OfClass(cl, h) && !Refused(fixed, regs, list, n, h)
    && forall g: nat :: OfClass(cl, g) && g < h ==> Refused(fixed, regs, list, n, g)
  }

  /** The i-th active interval may be spilled, and is a constant if that is asked for. */
  ghost predicate Candidate(constants: set<int>, regs: seq<OpReg>, list: seq<nat>, onlyConstants: bool, i: nat) {
    i < |list| && list[i] < |regs| && regs[list[i]].weight != NEVER
    && (onlyConstants ==> regs[list[i]].order in constants)
  }

  /** The first candidate, which stands before every interval that ends no later than n. */
  ghost predicate FirstBefore(constants: set<int>, regs: seq<OpReg>, list: seq<nat>, n: nat, onlyConstants: bool,
                              k: nat)
    requires n < |regs|
  {
    && Candidate(constants, regs, list, onlyConstants, k)
    && (forall i :: 0 <= i <= k ==> list[i] < |regs| && regs[list[i]].end > regs[n].end)
    && forall i: nat :: i < k ==> !Candidate(constants, regs, list, onlyConstants, i)
  }

  /** The victim in the list: the first constant that stands before every interval that ends no
      later than n, else the first interval that does, else, if n must stay, the first of all. */
  ghost predicate Victim(constants: set<int>, regs: seq<OpReg>, list: seq<nat>, n: nat, k: nat)
    requires n < |regs|
  {
    if exists i: nat :: FirstBefore(constants, regs, list, n, true, i) then
      FirstBefore(constants, regs, list, n, true, k)
    else if exists i: nat :: FirstBefore(constants, regs, list, n, false, i) then
      FirstBefore(constants, regs, list, n, false, k)
    else
      regs[n].weight == NEVER && Candidate(constants, regs, list, false, k)
      && forall i: nat :: i < k ==> !Candidate(constants, regs, list, false, i)
  }

  /** Interval n is spilled itself: it may be, and no other one can make room for longer. */
  ghost predicate Itself(constants: set<int>, regs: seq<OpReg>, list: seq<nat>, n: nat)
    requires n < |regs|
  {
    regs[n].weight != NEVER && forall i: nat :: !FirstBefore(constants, regs, list, n, false, i)
  }

  ghost predicate Sorts(regs: seq<OpReg>, before: seq<nat>, after: seq<nat>) {
    multiset(after) == multiset(before) && PartlySorted(regs, after) && (|before| <= 2 ==> after == before)
  }

  /** Interval n gets the first free register of its class, and becomes active. */
  ghost predicate Given(cl: RegClass, fixed: seq<seq<Range>>, s: Scan, list: seq<nat>, n: nat, s': Scan,
                        after: seq<nat>)
    requires n < |s.regs|
  {
    exists h: nat ::
      && FirstFree(cl, fixed, s.regs, list, n, h) && s'.regs == s.regs[n := s.regs[n].(hard := h)]
      && s'.spilled == s.spilled && Sorts(s'.regs, list + [n], after)
  }

  /** One interval is spilled: n, or an active one whose register and place n takes. */
  ghost predicate Evicts(constants: set<int>, s: Scan, list: seq<nat>, n: nat, s': Scan, after: seq<nat>)
    requires n < |s.regs|
  {
    if Itself(constants, s.regs, list, n) then
      s'.regs == s.regs[n := s.regs[n].(cls := 0)] && s'.spilled == s.spilled + [n] && after == list
    else
      exists k: nat ::
        && k < |list| && list[k] < |s.regs| && Victim(constants, s.regs, list, n, k)
        && s'.regs == Evicted(s.regs, n, list[k]) && s'.spilled == s.spilled + [list[k]]
        && Sorts(s'.regs, Replaced(list, k, n), after)
  }

  /** One round of the main loop for interval n: the intervals that are over leave the lists,
      and n gets a register if there is one for it; only else an interval is spilled. */
  ghost predicate Stepped(classes: seq<RegClass>, fixed: seq<seq<Range>>, constants: set<int>, s: Scan, n: nat,
                          s': Scan)
  {
    && n < |s.regs| && s.regs[n].cls < |classes| == |s.active| == |s'.active|
    && (forall d :: 0 <= d < |classes| && d != s.regs[n].cls ==>
          s'.active[d] == StillActive(s.regs, s.active[d], n))
    && var c := s.regs[n].cls;
       var list := StillActive(s.regs, s.active[c], n);
       if AllRefused(classes[c], fixed, s.regs, list, n) then Evicts(constants, s, list, n, s', s'.active[c])
       else Given(classes[c], fixed, s, list, n, s', s'.active[c])
  }

  /** No register for n, and nothing that may be spilled. */
  ghost predicate Stuck(classes: seq<RegClass>, fixed: seq<seq<Range>>, s: Scan, n: nat) {
    && n < |s.regs| && s.regs[n].cls < |classes| == |s.active| && s.regs[n].weight == NEVER
    && var list := StillActive(s.regs, s.active[s.regs[n].cls], n);
       && AllRefused(classes[s.regs[n].cls], fixed, s.regs, list, n)
       && forall a :: a in list && a < |s.regs| ==> s.regs[a].weight == NEVER
  }

  /** The states of the scan, one more than the intervals that have been dealt with. */
  ghost predicate IsRun(classes: seq<RegClass>, fixed: seq<seq<Range>>, constants: set<int>, run: seq<Scan>) {
    && run != []
    && (forall n :: 0 <= n < |run| ==> Scanned(classes, run[n].regs, run[n].used, run[n].active, n))
    && (forall n :: 0 <= n < |run| - 1 ==> Stepped(classes, fixed, constants, run[n], n, run[n + 1]))
  }

  lemma RunStarts(classes: seq<RegClass>, fixed: seq<seq<Range>>, constants: set<int>, s: Scan)
    requires Scanned(classes, s.regs, s.used, s.active, 0)
    ensures IsRun(classes, fixed, constants, [s])
  {
  }

  lemma RunMore(classes: seq<RegClass>, fixed: seq<seq<Range>>, constants: set<int>, run: seq<Scan>, s: Scan)
    requires IsRun(classes, fixed, constants, run)
    requires Stepped(classes, fixed, constants, run[|run| - 1], |run| - 1, s)
    requires Scanned(classes, s.regs, s.used, s.active, |run|)
    ensures IsRun(classes, fixed, constants, run + [s])
  {
    hide Stepped, Scanned;
    forall n | 0 <= n < |run + [s]| - 1
      ensures Stepped(classes, fixed, constants, (run + [s])[n], n, (run + [s])[n + 1]) {
      if n == |run| - 1 {
        assert (run + [s])[n] == run[n] && (run + [s])[n + 1] == s;
      }
    }
  }

  // ---------- the searches ----------

  lemma SomeBefore(constants: set<int>, regs: seq<OpReg>, list: seq<nat>, n: nat, k: nat)
    requires n < |regs| && FirstBefore(constants, regs, list, n, true, k)
    ensures exists i: nat :: FirstBefore(constants, regs, list, n, false, i)
    decreases k
  {
    var i: nat := 0;
    while !Candidate(constants, regs, list, false, i)
      invariant i <= k && forall j: nat :: j < i ==> !Candidate(constants, regs, list, false, j)
      decreases k - i
    {
      i := i + 1;
    }
    assert FirstBefore(constants, regs, list, n, false, i);
  }

  lemma ItselfMay(constants: set<int>, regs: seq<OpReg>, list: seq<nat>, n: nat)
    requires n < |regs| && Itself(constants, regs, list, n)
    ensures regs[n].weight != NEVER
  {
  }

  lemma VictimFacts(constants: set<int>, regs: seq<OpReg>, list: seq<nat>, n: nat, k: nat)
    requires n < |regs| && Victim(constants, regs, list, n, k)
    ensures k < |list| && list[k] < |regs| && regs[list[k]].weight != NEVER
    ensures regs[list[k]].end > regs[n].end || regs[n].weight == NEVER
  {
  }

  lemma NoCandidates(constants: set<int>, regs: seq<OpReg>, list: seq<nat>)
    requires forall i: nat :: !Candidate(constants, regs, list, false, i)
    ensures forall a :: a in list && a < |regs| ==> regs[a].weight == NEVER
  {
    forall a | a in list && a < |regs| ensures regs[a].weight == NEVER {
      var i :| 0 <= i < |list| && list[i] == a;
      assert !Candidate(constants, regs, list, false, i);
    }
  }

  lemma FreeNotAll(cl: RegClass, fixed: seq<seq<Range>>, regs: seq<OpReg>, list: seq<nat>, n: nat, h: nat)
    requires n < |regs| && FirstFree(cl, fixed, regs, list, n, h)
    ensures !AllRefused(cl, fixed, regs, list, n)
  {
  }

  // ---------- the registers in use ----------

  /** They are those of the active intervals. */
  lemma UsedIs(classes: seq<RegClass>, regs: seq<OpReg>, used: seq<set<nat>>, active: seq<seq<nat>>, n: nat, c: nat)
    requires Scanned(classes, regs, used, active, n) && c < |classes|
    ensures |used| == |active| == |classes| && forall h: nat :: h in used[c] <==> InUse(regs, active[c], h)
  {
    hide PartlySorted, Apart, Retired;
    assert ListOk(classes[c], regs, used[c], active[c], c, n);
  }

  lemma AllInUse(classes: seq<RegClass>, regs: seq<OpReg>, used: seq<set<nat>>, active: seq<seq<nat>>, n: nat, c: nat)
    requires Scanned(classes, regs, used, active, n) && c < |classes| && classes[c].nextAvail <= classes[c].maxNum
    requires c < |active| && |active[c]| >= classes[c].maxNum - classes[c].nextAvail
    ensures forall h: nat :: OfClass(classes[c], h) ==> InUse(regs, active[c], h)
  {
    hide PartlySorted, Apart, Retired;
    assert ListOk(classes[c], regs, used[c], active[c], c, n);
    FullList(classes[c], regs, used[c], active[c], c, n);
  }

  // ---------- when there is room for all ----------

  /** The earlier intervals of the class that are not over when n starts. */
  ghost function Alive(regs: seq<OpReg>, n: nat): set<nat>
    requires n < |regs|
  {
    set a: nat | a < n && regs[a].cls == regs[n].cls && regs[a].end > regs[n].begin
  }

  /** Fewer intervals last when n starts than there are registers, one less when there are two,
      because an interval that is over can stay in a list of two; and n meets nothing fixed. */
  ghost predicate Roomy(classes: seq<RegClass>, fixed: seq<seq<Range>>, regs: seq<OpReg>, n: nat)
    requires n < |regs|
  {
    && regs[n].cls < |classes|
    && (var cl := classes[regs[n].cls];
        |Alive(regs, n)| < if cl.maxNum - cl.nextAvail == 2 then 1 else cl.maxNum - cl.nextAvail)
    && forall h: nat :: OfClass(classes[regs[n].cls], h) && h < |fixed| ==>
         !Meet(fixed[h], [Range(regs[n].begin, regs[n].end)])
  }

  ghost function Numbers(lo: nat, hi: nat): (r: set<int>)
    requires lo <= hi
    ensures |r| == hi - lo
    ensures forall h :: h in r <==> lo <= h < hi
    decreases hi
  {
    if lo == hi then {} else Numbers(lo, hi - 1) + {hi - 1}
  }

  ghost function Hards(regs: seq<OpReg>, list: seq<nat>): set<int>
    requires InRange(regs, list)
  {
    set k | 0 <= k < |list| :: regs[list[k]].hard
  }

  lemma {:induction false} HardsCount(regs: seq<OpReg>, list: seq<nat>)
    requires InRange(regs, list)
    ensures |Hards(regs, list)| <= |list|
    ensures (forall i, j :: 0 <= i < j < |list| ==> regs[list[i]].hard != regs[list[j]].hard) ==>
              |Hards(regs, list)| == |list|
  {
    if list != [] {
      var n := |list| - 1;
      HardsCount(regs, list[..n]);
      assert Hards(regs, list) == Hards(regs, list[..n]) + {regs[list[n]].hard};
    }
  }

  lemma SubsetCount(a: set<int>, b: set<int>)
    requires a <= b
    ensures |a| <= |b| && (|a| == |b| ==> a == b)
  {
    assert b == a + (b - a);
  }

  /** A list as long as the class has registers has them all. */
  lemma FullList(cl: RegClass, regs: seq<OpReg>, used: set<nat>, list: seq<nat>, c: nat, n: nat)
    requires ListOk(cl, regs, used, list, c, n) && cl.nextAvail <= cl.maxNum && |list| >= cl.maxNum - cl.nextAvail
    ensures forall h: nat :: OfClass(cl, h) ==> InUse(regs, list, h)
  {
    var all := Numbers(cl.nextAvail, cl.maxNum);
    OnceDistinct(list);
    forall i, j | 0 <= i < j < |list| ensures regs[list[i]].hard != regs[list[j]].hard {
      assert list[i] in list && list[j] in list;
    }
    HardsCount(regs, list);
    forall x | x in Hards(regs, list) ensures x in all {
      var k :| 0 <= k < |list| && regs[list[k]].hard == x;
      assert list[k] in list;
    }
    SubsetCount(Hards(regs, list), all);
    forall h: nat | OfClass(cl, h) ensures InUse(regs, list, h) {
      assert h in all;
      var k :| 0 <= k < |list| && regs[list[k]].hard == h;
      assert list[k] in list;
    }
  }

  lemma TwiceCounted(s: seq<nat>, i: nat, j: nat)
    requires i < j < |s| && s[i] == s[j]
    ensures multiset(s)[s[i]] >= 2
  {
    assert s == s[..i] + [s[i]] + s[i + 1..j] + [s[j]] + s[j + 1..];
  }

  lemma OnceDistinct(s: seq<nat>)
    requires Once(s)
    ensures forall i, j :: 0 <= i < j < |s| ==> s[i] != s[j]
  {
    forall i, j | 0 <= i < j < |s| && s[i] == s[j] ensures multiset(s)[s[i]] >= 2 {
      TwiceCounted(s, i, j);
    }
  }

  lemma {:induction false} StillPrefix(regs: seq<OpReg>, list: seq<nat>, n: nat) returns (m: nat)
    requires n < |regs| && InRange(regs, list)
    ensures m <= |list| && StillActive(regs, list, n) == list[..m]
    ensures m > 0 ==> regs[list[m - 1]].end > regs[n].begin
    decreases |list|
  {
    m := |list|;
    if list != [] && regs[list[|list| - 1]].end <= regs[n].begin {
      m := StillPrefix(regs, list[..|list| - 1], n);
      assert list[..|list| - 1][..m] == list[..m];
    } else {
      assert list[..m] == list;
    }
  }

  /** Of the intervals in a list, all last when n starts, but for the first of two. */
  lemma ActiveAlive(cl: RegClass, regs: seq<OpReg>, used: set<nat>, list: seq<nat>, c: nat, n: nat)
    requires ListOk(cl, regs, used, list, c, n) && PartlySorted(regs, list) && n < |regs| && regs[n].cls == c
    ensures var still := StillActive(regs, list, n);
            |still| <= |Alive(regs, n)| || (|still| == 2 && |Alive(regs, n)| == 1)
  {
    var m := StillPrefix(regs, list, n);
    var still := list[..m];
    OnceDistinct(list);
    var last := set k | 0 <= k < m && regs[list[k]].end > regs[n].begin :: list[k];
    hide Once;
    forall a | a in last ensures a in Alive(regs, n) {
      assert a in list;
    }
    SubsetOf(last, Alive(regs, n));
    if m == 2 && regs[list[0]].end <= regs[n].begin {
      assert list[1] in last && |{list[1]}| == 1;
      SubsetOf({list[1]}, Alive(regs, n));
    } else {
      AllLast(regs, list, n, m);
      assert last == Firsts(list, m);
      FirstsCount(list, m);
    }
  }

  lemma AllLast(regs: seq<OpReg>, list: seq<nat>, n: nat, m: nat)
    requires PartlySorted(regs, list) && n < |regs| && m <= |list|
    requires m > 0 ==> regs[list[m - 1]].end > regs[n].begin
    requires !(m == 2 && regs[list[0]].end <= regs[n].begin)
    ensures forall k :: 0 <= k < m ==> regs[list[k]].end > regs[n].begin
  {
    forall k | 0 <= k < m ensures regs[list[k]].end > regs[n].begin {
      if k < m - 1 {
        assert m > 2 ==> Ordered(regs, list, k, m - 1);
      }
    }
  }

  ghost function Firsts(list: seq<nat>, m: nat): set<nat>
    requires m <= |list|
  {
    set k | 0 <= k < m :: list[k]
  }

  lemma {:induction false} FirstsCount(list: seq<nat>, m: nat)
    requires m <= |list| && forall i, j :: 0 <= i < j < |list| ==> list[i] != list[j]
    ensures |Firsts(list, m)| == m
  {
    if m > 0 {
      FirstsCount(list, m - 1);
      assert Firsts(list, m) == Firsts(list, m - 1) + {list[m - 1]};
    } else {
      assert Firsts(list, m) == {};
    }
  }

  lemma SubsetOf(a: set<nat>, b: set<nat>)
    requires a <= b
    ensures |a| <= |b|
  {
    assert b == a + (b - a);
  }

  /** If all registers are refused though n meets no fixed range, they are all in the list. */
  lemma RefusedFull(cl: RegClass, fixed: seq<seq<Range>>, regs: seq<OpReg>, list: seq<nat>, n: nat)
    requires n < |regs| && InRange(regs, list) && cl.nextAvail <= cl.maxNum && AllRefused(cl, fixed, regs, list, n)
    requires forall h: nat :: OfClass(cl, h) && h < |fixed| ==> !Meet(fixed[h], [Range(regs[n].begin, regs[n].end)])
    ensures |list| >= cl.maxNum - cl.nextAvail
  {
    hide Meet;
    var all := Numbers(cl.nextAvail, cl.maxNum);
    forall x | x in all ensures x in Hards(regs, list) {
      var h: nat := x;
      assert Refused(fixed, regs, list, n, h) && InUse(regs, list, h);
      var a :| a in list && a < |regs| && regs[a].hard == h;
      var k :| 0 <= k < |list| && list[k] == a;
    }
    HardsCount(regs, list);
    SubsetCount(all, Hards(regs, list));
  }

  lemma RoomyNotRefused(classes: seq<RegClass>, fixed: seq<seq<Range>>, s: Scan, n: nat)
    requires Scanned(classes, s.regs, s.used, s.active, n) && n < |s.regs| && Roomy(classes, fixed, s.regs, n)
    requires classes[s.regs[n].cls].nextAvail <= classes[s.regs[n].cls].maxNum
    ensures !AllRefused(classes[s.regs[n].cls], fixed, s.regs, StillActive(s.regs, s.active[s.regs[n].cls], n), n)
  {
    hide Apart, Retired, AllRefused, Meet;
    var c := s.regs[n].cls;
    assert ListOk(classes[c], s.regs, s.used[c], s.active[c], c, n);
    ActiveAlive(classes[c], s.regs, s.used[c], s.active[c], c, n);
    var m := StillPrefix(s.regs, s.active[c], n);
    if AllRefused(classes[c], fixed, s.regs, s.active[c][..m], n) {
      RefusedFull(classes[c], fixed, s.regs, s.active[c][..m], n);
    }
  }

  /** Only registers have been given out. */
  ghost predicate Undisturbed(before: seq<OpReg>, s: Scan) {
    s.spilled == [] && |s.regs| == |before|
    && forall a :: 0 <= a < |before| ==> s.regs[a].(hard := before[a].hard) == before[a]
  }

  lemma RoomySame(classes: seq<RegClass>, fixed: seq<seq<Range>>, regs: seq<OpReg>, s: Scan, n: nat)
    requires Undisturbed(regs, s) && n < |regs| && Roomy(classes, fixed, regs, n)
    ensures Roomy(classes, fixed, s.regs, n)
  {
    hide Meet;
    assert forall a :: 0 <= a < |regs| ==> s.regs[a].(hard := regs[a].hard) == regs[a];
    assert Alive(s.regs, n) == Alive(regs, n);
  }

  /** If there is room for every interval, none is spilled in the whole run, and the scan is
      never stuck. */
  lemma {:induction false} NoneSpilled(classes: seq<RegClass>, fixed: seq<seq<Range>>, constants: set<int>,
                                       run: seq<Scan>, n: nat)
    requires IsRun(classes, fixed, constants, run) && n < |run| && run[0].spilled == []
    requires forall c :: 0 <= c < |classes| ==> classes[c].nextAvail <= classes[c].maxNum
    requires forall a: nat :: a < |run[0].regs| ==> Roomy(classes, fixed, run[0].regs, a)
    ensures Undisturbed(run[0].regs, run[n]) && !Stuck(classes, fixed, run[n], n)
    decreases n
  {
    hide Scanned, Roomy, AllRefused, FirstFree, Sorts, Evicts;
    if n > 0 {
      NoneSpilled(classes, fixed, constants, run, n - 1);
      assert Stepped(classes, fixed, constants, run[n - 1], n - 1, run[n]);
      RoomySame(classes, fixed, run[0].regs, run[n - 1], n - 1);
      RoomyNotRefused(classes, fixed, run[n - 1], n - 1);
    }
    if n < |run[n].regs| && run[n].regs[n].cls < |classes| {
      RoomySame(classes, fixed, run[0].regs, run[n], n);
      RoomyNotRefused(classes, fixed, run[n], n);
    }
  }
}
