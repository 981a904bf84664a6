/** What the linear scan keeps about intervals, registers and active lists
    (backend/linearscan.c). */
module ScanState {
  import opened Ranges

  const NEVER := 0x7FFF_FFFF

  /** cls 0 stands for an interval that has been spilled. */
  datatype OpReg = OpReg(order: int, begin: int, end: int, cls: nat, hard: int, weight: int)

  datatype RegClass = RegClass(nextAvail: nat, maxNum: nat)

  predicate Overlap(a: OpReg, b: OpReg) {
    Max(a.begin, b.begin) < Min(a.end, b.end)
  }

  /** cmp_end: the interval that ends later comes first. */
  function CmpEnd(a: OpReg, b: OpReg): int {
    if b.end != a.end then b.end - a.end else b.order - a.order
  }

  ghost predicate Once(s: seq<nat>) {
    forall x :: multiset(s)[x] <= 1
  }

  // ---------- bubble_sort ----------

  ghost predicate InRange(regs: seq<OpReg>, s: seq<nat>) {
    forall k :: 0 <= k < |s| ==> s[k] < |regs|
  }

  ghost predicate Ordered(regs: seq<OpReg>, s: seq<nat>, p: int, q: int)
    requires InRange(regs, s)
  {
    0 <= p < |s| && 0 <= q < |s| ==> CmpEnd(regs[s[p]], regs[s[q]]) <= 0
  }

  /** In order from the third element on; the first two may stand the wrong way round. */
  ghost predicate PartlySorted(regs: seq<OpReg>, s: seq<nat>) {
    InRange(regs, s) && forall p, q :: 0 <= p < q < |s| && q >= 2 ==> Ordered(regs, s, p, q)
  }

  /** The sort stops when the upper end has come down to position 1, so two elements are
      never compared with each other. */
  method BubbleSort(regs: seq<OpReg>, s: seq<nat>) returns (a: seq<nat>)
    requires InRange(regs, s)
    ensures multiset(a) == multiset(s) && |a| == |s| && PartlySorted(regs, a)
    ensures |s| <= 2 ==> a == s
    ensures forall p, q :: 0 <= p < q < |a| && q >= 2 ==>
              regs[a[p]].end > regs[a[q]].end
              || (regs[a[p]].end == regs[a[q]].end && regs[a[p]].order >= regs[a[q]].order)
  {
    a := s;
    var i, change := |s| - 1, true;
    while i > 1 && change
      invariant |a| == |s| && i <= |s| - 1 && multiset(a) == multiset(s) && InRange(regs, a)
      invariant |s| <= 2 ==> a == s
      invariant forall p, q :: 0 <= p < q < |a| && q > i && q >= 2 ==> Ordered(regs, a, p, q)
      invariant !change ==> forall p, q :: 0 <= p < q < |a| ==> Ordered(regs, a, p, q)
      decreases i
    {
      a, change := Pass(regs, a, i);
      i := i - 1;
    }
    forall p, q | 0 <= p < q < |a| && q >= 2
      ensures regs[a[p]].end > regs[a[q]].end
              || (regs[a[p]].end == regs[a[q]].end && regs[a[p]].order >= regs[a[q]].order)
    {
      assert Ordered(regs, a, p, q);
    }
  }

  /** One pass brings the greatest of the first i + 1 elements to position i. */
  method Pass(regs: seq<OpReg>, s: seq<nat>, i: nat) returns (a: seq<nat>, change: bool)
    requires InRange(regs, s) && 2 <= i < |s|
    requires forall p, q :: 0 <= p < q < |s| && q > i ==> Ordered(regs, s, p, q)
    ensures |a| == |s| && multiset(a) == multiset(s) && InRange(regs, a)
    ensures forall p, q :: 0 <= p < q < |a| && q >= i ==> Ordered(regs, a, p, q)
    ensures !change ==> forall p, q :: 0 <= p < q < |a| ==> Ordered(regs, a, p, q)
  {
    a, change := s, false;
    var j := 0;
    while j < i
      invariant 0 <= j <= i && |a| == |s| && multiset(a) == multiset(s) && InRange(regs, a)
      invariant forall p, q :: 0 <= p < q < |a| && q > i ==> Ordered(regs, a, p, q)
      invariant MaxAt(regs, a, j)
      invariant !change ==> forall p, q :: 0 <= p < q <= j ==> Ordered(regs, a, p, q)
    {
      if CmpEnd(regs[a[j]], regs[a[j + 1]]) > 0 {
        SwapKeeps(regs, a, j, i);
        a := a[j := a[j + 1]][j + 1 := a[j]];
        change := true;
      } else {
        NextMax(regs, a, j);
      }
      j := j + 1;
    }
    assert forall p :: 0 <= p < i ==> Ordered(regs, a, p, i);
  }

  /** The element at position j is the greatest so far. */
  ghost predicate MaxAt(regs: seq<OpReg>, a: seq<nat>, j: int)
    requires InRange(regs, a)
  {
    forall p :: 0 <= p < j ==> Ordered(regs, a, p, j)
  }

  lemma NextMax(regs: seq<OpReg>, a: seq<nat>, j: nat)
    requires InRange(regs, a) && j + 1 < |a| && MaxAt(regs, a, j) && CmpEnd(regs[a[j]], regs[a[j + 1]]) <= 0
    ensures MaxAt(regs, a, j + 1)
  {
    var k := j + 1;
    forall p | 0 <= p < k ensures Ordered(regs, a, p, k) {
      if p < j {
        assert Ordered(regs, a, p, j);
      }
    }
  }

  lemma SwapKeeps(regs: seq<OpReg>, a: seq<nat>, j: nat, i: nat)
    requires InRange(regs, a) && j < i < |a| && CmpEnd(regs[a[j]], regs[a[j + 1]]) > 0
    requires forall p, q :: 0 <= p < q < |a| && q > i ==> Ordered(regs, a, p, q)
    requires MaxAt(regs, a, j)
    ensures var b := a[j := a[j + 1]][j + 1 := a[j]];
            && multiset(b) == multiset(a) && InRange(regs, b)
            && (forall p, q :: 0 <= p < q < |b| && q > i ==> Ordered(regs, b, p, q))
            && MaxAt(regs, b, j + 1)
  {
    var b := a[j := a[j + 1]][j + 1 := a[j]];
    forall p, q | 0 <= p < q < |b| && q > i ensures Ordered(regs, b, p, q) {
      var p' := if p == j then j + 1 else if p == j + 1 then j else p;
      assert Ordered(regs, a, p', q);
    }
    var k := j + 1;
    forall p | 0 <= p < k ensures Ordered(regs, b, p, k) {
      if p < j {
        assert Ordered(regs, a, p, j);
      }
    }
  }

  // ---------- what the scan keeps ----------

  /** The active list of one class: each interval once, unspilled, in a register of its own. */
  ghost predicate ListOk(cl: RegClass, regs: seq<OpReg>, used: set<nat>, list: seq<nat>, c: nat, n: nat) {
    && InRange(regs, list) && Once(list)
    && (forall a :: a in list ==>
           a < n && regs[a].cls == c && 0 <= cl.nextAvail <= regs[a].hard < cl.maxNum && regs[a].hard in used)
    && (forall h :: h in used ==> exists a :: a in list && a < |regs| && regs[a].hard == h)
    && (forall a, b :: a in list && b in list && a != b ==> regs[a].hard != regs[b].hard)
    && (n <= |regs|)
  }

  ghost predicate BeginsSorted(regs: seq<OpReg>) {
    forall i, j :: 0 <= i < j < |regs| ==> regs[i].begin <= regs[j].begin
  }

  /** Overlapping unspilled intervals of a class among the first n have different registers. */
  ghost predicate Apart(regs: seq<OpReg>, n: nat) {
    n <= |regs| && forall a, b ::
      0 <= a < b < n && regs[a].cls == regs[b].cls && regs[a].cls != 0 && Overlap(regs[a], regs[b]) ==>
      regs[a].hard != regs[b].hard
  }

  /** An unspilled interval that is not active any more is over before the next one starts. */
  ghost predicate Retired(regs: seq<OpReg>, active: seq<seq<nat>>, n: nat) {
    forall a, j :: 0 <= a < n <= j < |regs| && 0 < regs[a].cls < |active| && a !in active[regs[a].cls] ==>
      regs[a].end <= regs[j].begin
  }

  ghost predicate Scanned(classes: seq<RegClass>, regs: seq<OpReg>, used: seq<set<nat>>, active: seq<seq<nat>>,
                          n: nat) {
    && |used| == |active| == |classes| && n <= |regs|
    && (forall a :: 0 <= a < |regs| ==> regs[a].cls < |classes|)
    && (forall c: nat :: c < |classes| ==>
         ListOk(classes[c], regs, used[c], active[c], c, n) && PartlySorted(regs, active[c])
           && (c == 0 ==> active[c] == []))
    && BeginsSorted(regs) && Apart(regs, n) && Retired(regs, active, n)
    && (forall a :: 0 <= a < n && regs[a].cls != 0 ==>
           classes[regs[a].cls].nextAvail <= regs[a].hard < classes[regs[a].cls].maxNum)
  }

  lemma InMultiset(s: seq<nat>, x: nat)
    ensures x in s <==> multiset(s)[x] > 0
  {
    assert x in s <==> x in multiset(s);
  }

  lemma SameMembers(s: seq<nat>, t: seq<nat>)
    requires multiset(s) == multiset(t)
    ensures forall x :: x in s <==> x in t
    ensures Once(s) <==> Once(t)
  {
    forall x: nat ensures x in s <==> x in t {
      InMultiset(s, x);
      InMultiset(t, x);
    }
  }

  /** Only the order of one list changes. */
  lemma SortKeeps(classes: seq<RegClass>, regs: seq<OpReg>, used: seq<set<nat>>, active: seq<seq<nat>>, n: nat, c: nat,
                  list: seq<nat>)
    requires |used| == |active| == |classes| && c < |active| && 0 < c
    requires ScannedBut(classes, regs, used, active, n, c) && ListOk(classes[c], regs, used[c], active[c], c, n)
    requires multiset(list) == multiset(active[c]) && PartlySorted(regs, list)
    ensures Scanned(classes, regs, used, active[c := list], n)
  {
    SameMembers(active[c], list);
  }

  /** Scanned, except that the list of class c need not be sorted. */
  ghost predicate ScannedBut(classes: seq<RegClass>, regs: seq<OpReg>, used: seq<set<nat>>, active: seq<seq<nat>>,
                             n: nat, c: nat) {
    && |used| == |active| == |classes| && n <= |regs|
    && (forall a :: 0 <= a < |regs| ==> regs[a].cls < |classes|)
    && (forall d: nat :: d < |classes| && d != c ==>
         ListOk(classes[d], regs, used[d], active[d], d, n) && PartlySorted(regs, active[d])
           && (d == 0 ==> active[d] == []))
    && BeginsSorted(regs) && Apart(regs, n) && Retired(regs, active, n)
    && (forall a :: 0 <= a < n && regs[a].cls != 0 ==>
           classes[regs[a].cls].nextAvail <= regs[a].hard < classes[regs[a].cls].maxNum)
  }

  lemma LastOnce(s: seq<nat>)
    requires s != [] && Once(s)
    ensures Once(s[..|s| - 1]) && s[|s| - 1] !in s[..|s| - 1]
    ensures forall x :: x in s <==> x == s[|s| - 1] || x in s[..|s| - 1]
  {
    var n := |s| - 1;
    assert s == s[..n] + [s[n]];
    assert multiset(s) == multiset(s[..n]) + multiset{s[n]};
    assert multiset(s)[s[n]] == multiset(s[..n])[s[n]] + 1;
    InMultiset(s[..n], s[n]);
    forall x: nat ensures multiset(s[..n])[x] <= 1 {
      assert multiset(s)[x] <= 1;
    }
  }

  /** A list without its last element, and its register given back. */
  lemma ListShrinks(cl: RegClass, regs: seq<OpReg>, used: set<nat>, list: seq<nat>, c: nat, n: nat)
    requires ListOk(cl, regs, used, list, c, n) && PartlySorted(regs, list) && list != []
    ensures var a, rest := list[|list| - 1], list[..|list| - 1];
            && a in list && a < n <= |regs| && regs[a].cls == c && regs[a].hard >= 0
            && ListOk(cl, regs, used - {regs[a].hard}, rest, c, n) && PartlySorted(regs, rest)
            && forall x :: x in list <==> x == a || x in rest
  {
    var a, rest := list[|list| - 1], list[..|list| - 1];
    assert a in list;
    LastOnce(list);
    forall h | h in used && h != regs[a].hard ensures exists x :: x in rest && x < |regs| && regs[x].hard == h {
      var x :| x in list && x < |regs| && regs[x].hard == h;
      assert x in rest;
    }
    forall p, q | 0 <= p < q < |rest| && q >= 2 ensures Ordered(regs, rest, p, q) {
      assert Ordered(regs, list, p, q);
    }
  }

  /** The last active interval of a class is over: its register becomes free. */
  lemma RetireKeeps(classes: seq<RegClass>, regs: seq<OpReg>, used: seq<set<nat>>, active: seq<seq<nat>>, n: nat,
                    c: nat)
    requires Scanned(classes, regs, used, active, n) && c < |classes| && active[c] != [] && n < |regs|
    requires active[c][|active[c]| - 1] < |regs| && regs[active[c][|active[c]| - 1]].end <= regs[n].begin
    ensures var a := active[c][|active[c]| - 1];
            && regs[a].hard >= 0
            && Scanned(classes, regs, used[c := used[c] - {regs[a].hard}], active[c := active[c][..|active[c]| - 1]], n)
  {
    hide ListOk, PartlySorted, Apart;
    var list := active[c];
    var a, rest := list[|list| - 1], list[..|list| - 1];
    ListShrinks(classes[c], regs, used[c], list, c, n);
    var active' := active[c := rest];
    forall x, j | 0 <= x < n <= j < |regs| && 0 < regs[x].cls < |active'| && x !in active'[regs[x].cls]
      ensures regs[x].end <= regs[j].begin
    {
      if x == a {
        assert n < j ==> regs[n].begin <= regs[j].begin;
      } else {
        assert x !in active[regs[x].cls];
      }
    }
  }

  /** Interval n gets the register h, which is free in its class. */
  lemma AllocKeeps(classes: seq<RegClass>, regs: seq<OpReg>, used: seq<set<nat>>, active: seq<seq<nat>>, n: nat, h: nat)
    requires Scanned(classes, regs, used, active, n) && n < |regs| && 0 < regs[n].cls < |classes|
    requires h !in used[regs[n].cls] && classes[regs[n].cls].nextAvail <= h < classes[regs[n].cls].maxNum
    ensures var c := regs[n].cls;
            var regs' := regs[n := regs[n].(hard := h)];
            var used', active' := used[c := used[c] + {h}], active[c := active[c] + [n]];
            && ScannedBut(classes, regs', used', active', n + 1, c)
            && ListOk(classes[c], regs', used'[c], active'[c], c, n + 1)
  {
    hide PartlySorted, ListOk, Apart, Retired;
    var c := regs[n].cls;
    var regs' := regs[n := regs[n].(hard := h)];
    var used', active' := used[c := used[c] + {h}], active[c := active[c] + [n]];
    ListGrows(classes[c], regs, used[c], active[c], c, n, h);
    forall d: nat | d < |classes| ensures forall a :: a in active[d] ==> a < n && regs[a].hard in used[d] {
      ListFacts(classes[d], regs, used[d], active[d], d, n);
    }
    forall d: nat | d < |classes| && d != c
      ensures ListOk(classes[d], regs', used'[d], active'[d], d, n + 1) && PartlySorted(regs', active'[d])
    {
      OtherList(classes[d], regs, used[d], active[d], d, n, regs');
    }
    ApartGrows(classes, regs, used, active, n, regs');
    RetiredGrows(regs, active, n, regs', active');
  }

  lemma ListGrows(cl: RegClass, regs: seq<OpReg>, used: set<nat>, list: seq<nat>, c: nat, n: nat, h: nat)
    requires ListOk(cl, regs, used, list, c, n) && n < |regs| && regs[n].cls == c && h !in used
    requires cl.nextAvail <= h < cl.maxNum
    ensures ListOk(cl, regs[n := regs[n].(hard := h)], used + {h}, list + [n], c, n + 1)
  {
    var list', regs' := list + [n], regs[n := regs[n].(hard := h)];
    assert multiset(list') == multiset(list) + multiset{n};
    InMultiset(list, n);
    assert n !in list;
    assert forall x :: x in list' <==> x == n || x in list;
    forall x: nat ensures multiset(list')[x] <= 1 {
      assert multiset(list)[x] <= 1;
    }
    forall g | g in used + {h} ensures exists a :: a in list' && a < |regs'| && regs'[a].hard == g {
      if g == h {
        assert n in list' && regs'[n].hard == h;
      } else {
        var a :| a in list && a < |regs| && regs[a].hard == g;
        assert a in list' && regs'[a].hard == g;
      }
    }
  }

  /** The list of another class, while interval n is given a register or spilled. */
  lemma OtherList(cl: RegClass, regs: seq<OpReg>, used: set<nat>, list: seq<nat>, d: nat, n: nat, regs': seq<OpReg>)
    requires ListOk(cl, regs, used, list, d, n) && PartlySorted(regs, list) && |regs'| == |regs| && n < |regs|
    requires forall a :: a in list && a < |regs| ==> regs'[a] == regs[a]
    ensures ListOk(cl, regs', used, list, d, n + 1) && PartlySorted(regs', list)
  {
    forall h | h in used ensures exists a :: a in list && a < |regs'| && regs'[a].hard == h {
      var a :| a in list && a < |regs| && regs[a].hard == h;
      assert regs'[a].hard == h;
    }
    forall p, q | 0 <= p < q < |list| && q >= 2 ensures Ordered(regs', list, p, q) {
      assert Ordered(regs, list, p, q);
      assert list[p] in list && list[q] in list;
    }
  }

  lemma ApartGrows(classes: seq<RegClass>, regs: seq<OpReg>, used: seq<set<nat>>, active: seq<seq<nat>>, n: nat,
                   regs': seq<OpReg>)
    requires Scanned(classes, regs, used, active, n) && n < |regs| && 0 < regs[n].cls < |classes|
    requires |regs'| == |regs| && (forall a :: 0 <= a < |regs| && a != n ==> regs'[a] == regs[a])
    requires regs'[n].begin == regs[n].begin && regs'[n].end == regs[n].end && regs'[n].cls == regs[n].cls
    requires regs'[n].hard >= 0
    requires forall a :: a in active[regs[n].cls] && a < n ==> regs[a].hard != regs'[n].hard
    ensures Apart(regs', n + 1)
  {
    hide ListOk, PartlySorted;
    forall a, b | 0 <= a < b < n + 1 && regs'[a].cls == regs'[b].cls && regs'[a].cls != 0 && Overlap(regs'[a], regs'[b])
      ensures regs'[a].hard != regs'[b].hard
    {
      if b == n {
        if a !in active[regs[n].cls] {
          assert regs[a].end <= regs[n].begin;
        }
      } else {
        assert regs[a].cls == regs[b].cls && Overlap(regs[a], regs[b]);
      }
    }
  }

  lemma RetiredGrows(regs: seq<OpReg>, active: seq<seq<nat>>, n: nat, regs': seq<OpReg>, active': seq<seq<nat>>)
    requires Retired(regs, active, n) && n < |regs| && 0 < regs[n].cls < |active| && |active'| == |active|
    requires |regs'| == |regs|
    requires active' == active[regs[n].cls := active[regs[n].cls] + [n]]
    requires regs' == regs[n := regs[n].(hard := regs'[n].hard)]
    ensures Retired(regs', active', n + 1)
  {
    forall a, j | 0 <= a < n + 1 <= j < |regs'| && 0 < regs'[a].cls < |active'| && a !in active'[regs'[a].cls]
      ensures regs'[a].end <= regs'[j].begin
    {
      assert n in active'[regs[n].cls];
      assert a != n;
      assert a !in active[regs[a].cls];
    }
  }

  lemma ListFacts(cl: RegClass, regs: seq<OpReg>, used: set<nat>, list: seq<nat>, c: nat, n: nat)
    requires ListOk(cl, regs, used, list, c, n)
    ensures forall a :: a in list ==> a < n <= |regs| && regs[a].cls == c && regs[a].hard >= 0 && regs[a].hard in used
    ensures forall k :: 0 <= k < |list| ==> list[k] in list
  {
  }

  /** The registers after interval n has taken the place of cand. */
  function Evicted(regs: seq<OpReg>, n: nat, cand: nat): seq<OpReg>
    requires n < |regs| && cand < |regs|
  {
    regs[n := regs[n].(hard := regs[cand].hard)][cand := regs[cand].(cls := 0)]
  }

  function Replaced(list: seq<nat>, k: nat, n: nat): seq<nat>
    requires k < |list|
  {
    list[k := n]
  }

  lemma ReplacedMembers(list: seq<nat>, k: nat, n: nat)
    requires Once(list) && k < |list| && n !in list
    ensures var list' := Replaced(list, k, n);
            Once(list') && list[k] in list && forall x :: x in list' <==> x == n || (x in list && x != list[k])
  {
    var cand: nat, list': seq<nat> := list[k], Replaced(list, k, n);
    assert multiset(list') == multiset(list) - multiset{cand} + multiset{n};
    InMultiset(list, n);
    InMultiset(list, cand);
    forall x: nat ensures multiset(list')[x] <= 1 && (x in list' <==> x == n || (x in list && x != cand)) {
      assert multiset(list)[x] <= 1;
      InMultiset(list, x);
      InMultiset(list', x);
    }
  }

  lemma ListReplaces(cl: RegClass, regs: seq<OpReg>, used: set<nat>, list: seq<nat>, c: nat, n: nat, k: nat)
    requires ListOk(cl, regs, used, list, c, n) && n < |regs| && regs[n].cls == c && k < |list| && c > 0
    ensures list[k] < n && ListOk(cl, Evicted(regs, n, list[k]), used, Replaced(list, k, n), c, n + 1)
  {
    var cand, list' := list[k], Replaced(list, k, n);
    assert cand in list;
    var regs' := Evicted(regs, n, cand);
    assert n !in list;
    ReplacedMembers(list, k, n);
    forall h | h in used ensures exists a :: a in list' && a < |regs'| && regs'[a].hard == h {
      var a :| a in list && a < |regs| && regs[a].hard == h;
      if a == cand {
        assert n in list' && regs'[n].hard == h;
      } else {
        assert a in list' && regs'[a].hard == h;
      }
    }
  }

  /** Interval n takes the register of an active one, which is spilled. */
  lemma EvictKeeps(classes: seq<RegClass>, regs: seq<OpReg>, used: seq<set<nat>>, active: seq<seq<nat>>, n: nat, k: nat)
    requires Scanned(classes, regs, used, active, n) && n < |regs| && 0 < regs[n].cls < |classes|
    requires k < |active[regs[n].cls]|
    ensures var c := regs[n].cls;
            var cand := active[c][k];
            && cand < n && regs[cand].cls == c && regs[cand].hard >= 0
            && ScannedBut(classes, Evicted(regs, n, cand), used, active[c := Replaced(active[c], k, n)], n + 1, c)
            && ListOk(classes[c], Evicted(regs, n, cand), used[c], Replaced(active[c], k, n), c, n + 1)
  {
    hide PartlySorted, ListOk, Apart, Retired;
    var c := regs[n].cls;
    forall d: nat | d < |classes|
      ensures forall a :: a in active[d] ==> a < n && regs[a].cls == d && regs[a].hard >= 0
    {
      ListFacts(classes[d], regs, used[d], active[d], d, n);
    }
    ListFacts(classes[c], regs, used[c], active[c], c, n);
    var cand := active[c][k];
    assert cand in active[c];
    ListReplaces(classes[c], regs, used[c], active[c], c, n, k);
    var regs' := Evicted(regs, n, cand);
    forall d: nat | d < |classes| && d != c
      ensures ListOk(classes[d], regs', used[d], active[d], d, n + 1) && PartlySorted(regs', active[d])
    {
      OtherList(classes[d], regs, used[d], active[d], d, n, regs');
    }
    EvictApart(classes, regs, used, active, n, cand);
    EvictRetired(regs, active, n, k, cand);
  }

  lemma EvictApart(classes: seq<RegClass>, regs: seq<OpReg>, used: seq<set<nat>>, active: seq<seq<nat>>, n: nat,
                   cand: nat)
    requires Scanned(classes, regs, used, active, n) && n < |regs| && 0 < regs[n].cls < |classes|
    requires cand in active[regs[n].cls] && cand < n
    ensures Apart(Evicted(regs, n, cand), n + 1)
  {
    hide PartlySorted;
    var regs' := Evicted(regs, n, cand);
    var c := regs[n].cls;
    assert ListOk(classes[c], regs, used[c], active[c], c, n);
    forall a, b | 0 <= a < b < n + 1 && regs'[a].cls == regs'[b].cls && regs'[a].cls != 0 && Overlap(regs'[a], regs'[b])
      ensures regs'[a].hard != regs'[b].hard
    {
      if b == n {
        assert a in active[c];
      } else {
        assert regs[a].cls == regs[b].cls && Overlap(regs[a], regs[b]);
      }
    }
  }

  lemma EvictRetired(regs: seq<OpReg>, active: seq<seq<nat>>, n: nat, k: nat, cand: nat)
    requires Retired(regs, active, n) && n < |regs| && 0 < regs[n].cls < |active| && k < |active[regs[n].cls]|
    requires cand == active[regs[n].cls][k] && cand < n && regs[cand].cls == regs[n].cls
    ensures Retired(Evicted(regs, n, cand), active[regs[n].cls := Replaced(active[regs[n].cls], k, n)], n + 1)
  {
    var regs', c := Evicted(regs, n, cand), regs[n].cls;
    var active' := active[c := Replaced(active[c], k, n)];
    assert active'[c][k] == n;
    forall a, j | 0 <= a < n + 1 <= j < |regs'| && 0 < regs'[a].cls < |active'| && a !in active'[regs'[a].cls]
      ensures regs'[a].end <= regs'[j].begin
    {
      assert a != n && a != cand;
      if regs[a].cls == c {
        forall i | 0 <= i < |active[c]| ensures active[c][i] != a {
          assert active'[c][i] in active'[c] && (i == k || active'[c][i] == active[c][i]);
        }
      }
      assert a !in active[regs[a].cls];
    }
  }

  /** Interval n itself is spilled. */
  lemma SpillKeeps(classes: seq<RegClass>, regs: seq<OpReg>, used: seq<set<nat>>, active: seq<seq<nat>>, n: nat)
    requires Scanned(classes, regs, used, active, n) && n < |regs|
    ensures Scanned(classes, regs[n := regs[n].(cls := 0)], used, active, n + 1)
  {
    hide PartlySorted, ListOk;
    var regs' := regs[n := regs[n].(cls := 0)];
    forall d: nat | d < |classes|
      ensures ListOk(classes[d], regs', used[d], active[d], d, n + 1) && PartlySorted(regs', active[d])
    {
      ListFacts(classes[d], regs, used[d], active[d], d, n);
      OtherList(classes[d], regs, used[d], active[d], d, n, regs');
    }
    forall a, b | 0 <= a < b < n + 1 && regs'[a].cls == regs'[b].cls && regs'[a].cls != 0 && Overlap(regs'[a], regs'[b])
      ensures regs'[a].hard != regs'[b].hard
    {
      assert b < n && regs[a].cls == regs[b].cls && Overlap(regs[a], regs[b]);
    }
    forall a, j | 0 <= a < n + 1 <= j < |regs'| && 0 < regs'[a].cls < |active| && a !in active[regs'[a].cls]
      ensures regs'[a].end <= regs'[j].begin
    {
      assert a < n && a !in active[regs[a].cls];
    }
  }

  lemma NothingScanned(classes: seq<RegClass>, regs: seq<OpReg>, used: seq<set<nat>>, active: seq<seq<nat>>)
    requires BeginsSorted(regs) && |used| == |active| == |classes|
    requires forall a :: 0 <= a < |regs| ==> 0 < regs[a].cls < |classes|
    requires forall c :: 0 <= c < |classes| ==> used[c] == {} && active[c] == []
    ensures Scanned(classes, regs, used, active, 0)
  {
  }

  /** What is left of an active list once its last intervals, as far as they are over, have
      been taken off. */
  ghost function StillActive(regs: seq<OpReg>, list: seq<nat>, n: nat): seq<nat>
    requires n < |regs|
  {
    if list != [] && list[|list| - 1] < |regs| && regs[list[|list| - 1]].end <= regs[n].begin then
      StillActive(regs, list[..|list| - 1], n)
    else list
  }

  ghost predicate Expired(regs: seq<OpReg>, list: seq<nat>, n: nat)
    requires n < |regs|
  {
    forall k :: 0 <= k < |list| ==> list[k] < |regs| && (regs[list[k]].end > regs[n].begin || (k == 0 && |list| == 2))
  }

  lemma ScannedLengths(classes: seq<RegClass>, regs: seq<OpReg>, used: seq<set<nat>>, active: seq<seq<nat>>, n: nat)
    requires Scanned(classes, regs, used, active, n)
    ensures |used| == |active| == |classes| && n <= |regs|
  {
  }

  lemma ListAt(classes: seq<RegClass>, regs: seq<OpReg>, used: seq<set<nat>>, active: seq<seq<nat>>, n: nat, c: nat)
    requires Scanned(classes, regs, used, active, n) && c < |classes|
    ensures |used| == |active| == |classes| && n <= |regs|
    ensures forall k :: 0 <= k < |active[c]| ==>
              active[c][k] < n && regs[active[c][k]].cls == c && regs[active[c][k]].hard >= 0
  {
    hide PartlySorted, Apart, Retired;
    assert ListOk(classes[c], regs, used[c], active[c], c, n);
    ListFacts(classes[c], regs, used[c], active[c], c, n);
  }

  lemma LastIsEarliest(classes: seq<RegClass>, regs: seq<OpReg>, used: seq<set<nat>>, active: seq<seq<nat>>, n: nat,
                       c: nat)
    requires Scanned(classes, regs, used, active, n) && c < |classes| && n < |regs| && active[c] != []
    requires active[c][|active[c]| - 1] < |regs| && regs[active[c][|active[c]| - 1]].end > regs[n].begin
    ensures Expired(regs, active[c], n)
  {
    hide ListOk, Apart, Retired;
    var list := active[c];
    assert PartlySorted(regs, list);
    forall k | 0 <= k < |list|
      ensures list[k] < |regs| && (regs[list[k]].end > regs[n].begin || (k == 0 && |list| == 2))
    {
      if |list| > 2 && k < |list| - 1 {
        assert Ordered(regs, list, k, |list| - 1);
      }
    }
  }

  // ---------- the ranges fixed to hardware registers ----------

  /** The register of an interval is not needed for anything else while the interval lasts. */
  ghost predicate Safe(fixed: seq<seq<Range>>, r: OpReg) {
    0 <= r.hard < |fixed| && Disjoint(fixed[r.hard], [Range(r.begin, r.end)])
  }

  /** Interval a, which must not be spilled, has the register of v, which was spilled to make
      room and ends before a does. */
  ghost predicate TookOver(regs: seq<OpReg>, a: nat, v: nat)
    requires a < |regs|
  {
    && v < a && regs[a].weight == NEVER && regs[v].weight != NEVER
    && regs[v].cls == 0 && regs[v].hard == regs[a].hard
    && regs[v].begin <= regs[a].begin && regs[v].end < regs[a].end
  }

  /** ... and a fixed range of that register meets what is left of a when v ends. */
  ghost predicate Late(fixed: seq<seq<Range>>, regs: seq<OpReg>, a: nat, v: nat)
    requires a < |regs|
  {
    TookOver(regs, a, v) && 0 <= regs[a].hard < |fixed|
    && !Disjoint(fixed[regs[a].hard], [Range(Max(regs[a].begin, regs[v].end), regs[a].end)])
  }

  /** Exactly when an interval respects the fixed ranges of its register. */
  ghost predicate SafeOrLate(fixed: seq<seq<Range>>, regs: seq<OpReg>, a: nat)
    requires a < |regs|
  {
    0 <= regs[a].hard < |fixed| && (Safe(fixed, regs[a]) <==> forall v: nat :: !Late(fixed, regs, a, v))
  }

  lemma LateUnsafe(fixed: seq<seq<Range>>, regs: seq<OpReg>, a: nat, v: nat)
    requires a < |regs| && Late(fixed, regs, a, v)
    ensures !Safe(fixed, regs[a])
  {
    var own, rest := Range(regs[a].begin, regs[a].end), Range(Max(regs[a].begin, regs[v].end), regs[a].end);
    var p :| Covers(fixed[regs[a].hard], p) && Covers([rest], p);
    CoversOne(rest.from, rest.to, p);
    CoversOne(own.from, own.to, p);
  }

  lemma SafeNow(fixed: seq<seq<Range>>, regs: seq<OpReg>, a: nat)
    requires a < |regs| && 0 <= regs[a].hard < |fixed|
    requires Safe(fixed, regs[a]) || exists v: nat :: Late(fixed, regs, a, v)
    ensures SafeOrLate(fixed, regs, a)
  {
    hide Safe, Late;
    forall v: nat | Late(fixed, regs, a, v) ensures !Safe(fixed, regs[a]) {
      LateUnsafe(fixed, regs, a, v);
    }
  }

  /** For an interval of one position the victim was over and the position is fixed. */
  lemma LateOnePosition(fixed: seq<seq<Range>>, regs: seq<OpReg>, a: nat, v: nat)
    requires a < |regs| && regs[a].end == regs[a].begin + 1
    ensures Late(fixed, regs, a, v) <==>
              TookOver(regs, a, v) && regs[v].end <= regs[a].begin && 0 <= regs[a].hard < |fixed|
              && Covers(fixed[regs[a].hard], regs[a].begin)
  {
    if TookOver(regs, a, v) {
      forall p ensures Covers([Range(Max(regs[a].begin, regs[v].end), regs[a].end)], p) <==>
                       p == regs[a].begin && regs[v].end <= p
      {
        CoversOne(Max(regs[a].begin, regs[v].end), regs[a].end, p);
      }
    }
  }

  ghost predicate AllSafe(fixed: seq<seq<Range>>, regs: seq<OpReg>, n: nat) {
    n <= |regs| && forall a: nat :: a < n && regs[a].cls != 0 ==> SafeOrLate(fixed, regs, a)
  }

  /** Interval n is safe in the register of its victim exactly when the part of it that the
      victim does not reach meets no fixed range. */
  lemma EvictSafe(fixed: seq<seq<Range>>, regs: seq<OpReg>, n: nat, cand: nat)
    requires cand < n < |regs| && BeginsSorted(regs) && Safe(fixed, regs[cand])
    ensures var rest := Range(Max(regs[n].begin, regs[cand].end), regs[n].end);
            Safe(fixed, Evicted(regs, n, cand)[n]) <==> Disjoint(fixed[regs[cand].hard], [rest])
    ensures regs[n].end <= regs[cand].end ==> Safe(fixed, Evicted(regs, n, cand)[n])
  {
    var own, other := regs[n], regs[cand];
    var f := fixed[other.hard];
    assert other.begin <= own.begin;
    forall p ensures Covers([Range(own.begin, own.end)], p) <==>
                     Covers([Range(Max(own.begin, other.end), own.end)], p)
                       || (own.begin <= p < Min(own.end, other.end))
    {
      CoversOne(own.begin, own.end, p);
      CoversOne(Max(own.begin, other.end), own.end, p);
    }
    forall p | Covers(f, p) ensures !(own.begin <= p < Min(own.end, other.end)) {
      CoversOne(other.begin, other.end, p);
    }
    forall p ensures regs[n].end <= regs[cand].end ==> !Covers([Range(Max(own.begin, other.end), own.end)], p) {
      CoversOne(Max(own.begin, other.end), own.end, p);
    }
  }

  lemma CoversOne(from: int, to: int, p: int)
    ensures Covers([Range(from, to)], p) <==> from <= p < to
  {
    var s := [Range(from, to)];
    if from <= p < to {
      assert s[0].from <= p < s[0].to;
    }
  }

  /** An interval of one position, as the spill code gets them, is unsafe exactly when its
      victim is the first of two in the list, was over before it, and the position is fixed. */
  lemma EvictOnePosition(fixed: seq<seq<Range>>, regs: seq<OpReg>, list: seq<nat>, n: nat, k: nat)
    requires k < |list| && list[k] < n < |regs| && BeginsSorted(regs) && Safe(fixed, regs[list[k]])
    requires Expired(regs, list, n) && regs[n].end == regs[n].begin + 1
    ensures !Safe(fixed, Evicted(regs, n, list[k])[n]) <==>
            && k == 0 && |list| == 2 && regs[list[k]].end <= regs[n].begin
            && Covers(fixed[regs[list[k]].hard], regs[n].begin)
  {
    var cand := list[k];
    EvictSafe(fixed, regs, n, cand);
    forall p ensures Covers([Range(Max(regs[n].begin, regs[cand].end), regs[n].end)], p) <==>
                     p == regs[n].begin && regs[cand].end <= p
    {
      CoversOne(Max(regs[n].begin, regs[cand].end), regs[n].end, p);
    }
  }

  lemma EvictAllSafe(fixed: seq<seq<Range>>, regs: seq<OpReg>, n: nat, cand: nat)
    requires AllSafe(fixed, regs, n) && BeginsSorted(regs) && cand < n < |regs| && regs[cand].cls != 0
    requires regs[cand].weight != NEVER
    requires regs[cand].end > regs[n].end || regs[n].weight == NEVER
    ensures Safe(fixed, regs[cand]) && AllSafe(fixed, Evicted(regs, n, cand), n + 1)
  {
    hide Safe, Disjoint;
    var regs' := Evicted(regs, n, cand);
    assert SafeOrLate(fixed, regs, cand);
    assert Safe(fixed, regs[cand]) by {
      assert forall v: nat :: !Late(fixed, regs, cand, v);
    }
    forall a: nat | a < n + 1 && regs'[a].cls != 0 ensures SafeOrLate(fixed, regs', a) {
      if a == n {
        EvictSafe(fixed, regs, n, cand);
        if regs[cand].end < regs[n].end {
          assert Safe(fixed, regs'[n]) || Late(fixed, regs', n, cand);
        }
      } else {
        assert SafeOrLate(fixed, regs, a);
        if v: nat :| Late(fixed, regs, a, v) {
          assert Late(fixed, regs', a, v);
        }
      }
      SafeNow(fixed, regs', a);
    }
  }

  /** Only the class and the register of an interval change, the class at most to 0. */
  ghost predicate Kept(before: seq<OpReg>, after: seq<OpReg>) {
    |before| == |after| && forall a :: 0 <= a < |before| ==>
      after[a].(cls := before[a].cls, hard := before[a].hard) == before[a] && after[a].cls in {before[a].cls, 0}
  }

  /** The input of the scan: enough fixed range lists, each in order, and intervals that do
      not end before they begin. */
  ghost predicate FixedOk(classes: seq<RegClass>, fixed: seq<seq<Range>>, regs: seq<OpReg>) {
    && (forall c :: 0 <= c < |classes| ==> classes[c].nextAvail <= classes[c].maxNum <= |fixed|)
    && (forall h :: 0 <= h < |fixed| ==> Sorted(fixed[h]))
    && (forall a :: 0 <= a < |regs| ==> 0 <= regs[a].begin <= regs[a].end)
  }

  /** Among the first n intervals exactly those in the list have been spilled. */
  ghost predicate SpilledAre(regs: seq<OpReg>, spilled: seq<nat>, n: nat) {
    && (forall a :: n <= a < |regs| ==> regs[a].cls > 0)
    && (forall a :: a in spilled ==> a < n)
    && (forall a: nat :: a < n && a < |regs| ==> (regs[a].cls == 0 <==> a in spilled))
  }

  lemma AllocRest(classes: seq<RegClass>, fixed: seq<seq<Range>>, regs: seq<OpReg>, spilled: seq<nat>, n: nat,
                  regs': seq<OpReg>)
    requires FixedOk(classes, fixed, regs) && SpilledAre(regs, spilled, n) && n < |regs| == |regs'|
    requires regs' == regs[n := regs[n].(hard := regs'[n].hard)]
    ensures FixedOk(classes, fixed, regs') && SpilledAre(regs', spilled, n + 1) && Kept(regs, regs')
  {
  }

  lemma SpillRest(classes: seq<RegClass>, fixed: seq<seq<Range>>, regs: seq<OpReg>, spilled: seq<nat>, n: nat,
                  cand: nat, regs': seq<OpReg>)
    requires FixedOk(classes, fixed, regs) && SpilledAre(regs, spilled, n) && cand <= n < |regs| == |regs'|
    requires regs' == if cand == n then regs[n := regs[n].(cls := 0)] else Evicted(regs, n, cand)
    ensures FixedOk(classes, fixed, regs') && SpilledAre(regs', spilled + [cand], n + 1) && Kept(regs, regs')
  {
  }

  lemma KeptTwice(a: seq<OpReg>, b: seq<OpReg>, c: seq<OpReg>)
    requires Kept(a, b) && Kept(b, c)
    ensures Kept(a, c)
  {
    forall i | 0 <= i < |a| ensures c[i].(cls := a[i].cls, hard := a[i].hard) == a[i] {
      assert b[i].(cls := a[i].cls, hard := a[i].hard) == a[i];
      assert c[i].(cls := b[i].cls, hard := b[i].hard) == b[i];
    }
  }

  /** What the scan promises in the end. */
  ghost predicate Placed(classes: seq<RegClass>, fixed: seq<seq<Range>>, regs: seq<OpReg>) {
    && (forall a, b ::
           0 <= a < b < |regs| && regs[a].cls == regs[b].cls && regs[a].cls != 0 && Overlap(regs[a], regs[b]) ==>
          regs[a].hard != regs[b].hard)
    && (forall a :: 0 <= a < |regs| && regs[a].cls != 0 ==> regs[a].cls < |classes|)
    && (forall a :: 0 <= a < |regs| && regs[a].cls != 0 ==>
           classes[regs[a].cls].nextAvail <= regs[a].hard < classes[regs[a].cls].maxNum)
    && (forall a: nat :: a < |regs| && regs[a].cls != 0 ==> SafeOrLate(fixed, regs, a))
  }

  lemma ScannedPlaced(classes: seq<RegClass>, fixed: seq<seq<Range>>, regs: seq<OpReg>, used: seq<set<nat>>,
                      active: seq<seq<nat>>)
    requires Scanned(classes, regs, used, active, |regs|) && AllSafe(fixed, regs, |regs|)
    ensures Placed(classes, fixed, regs)
  {
    hide ListOk, PartlySorted, Retired, SafeOrLate;
  }

  lemma ListFits(classes: seq<RegClass>, regs: seq<OpReg>, used: seq<set<nat>>, active: seq<seq<nat>>, n: nat)
    requires Scanned(classes, regs, used, active, n)
    ensures BeginsSorted(regs) && forall a :: 0 <= a < |regs| ==> regs[a].cls < |classes| == |used| == |active|
  {
    hide ListOk, PartlySorted, Apart, Retired;
  }

  lemma ListInRange(cl: RegClass, regs: seq<OpReg>, used: set<nat>, list: seq<nat>, c: nat, n: nat)
    requires ListOk(cl, regs, used, list, c, n)
    ensures InRange(regs, list)
  {
  }
}
