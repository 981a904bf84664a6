/** Live ranges as lists of half-open intervals (backend/linearscan.c). */
module Ranges {
  datatype Range = Range(from: int, to: int)

  /** In order, without overlap; an empty range is allowed. */
  ghost predicate Sorted(s: seq<Range>) {
    && (forall i :: 0 <= i < |s| ==> 0 <= s[i].from <= s[i].to)
    && (forall i, j :: 0 <= i < j < |s| ==> s[i].to <= s[j].from)
  }

  ghost predicate NoEmpty(s: seq<Range>) {
    forall i :: 0 <= i < |s| ==> s[i].from < s[i].to
  }

  ghost predicate Covers(s: seq<Range>, p: int) {
    exists i :: 0 <= i < |s| && s[i].from <= p < s[i].to
  }

  ghost predicate Disjoint(s: seq<Range>, t: seq<Range>) {
    forall p :: Covers(s, p) ==> !Covers(t, p)
  }

  // ---------- add_range, add_def ----------

  function Min(a: int, b: int): int {
    if a <= b then a else b
  }

  function Max(a: int, b: int): int {
    if a >= b then a else b
  }

  /** A range is put in front, or joined with the first one when that begins by its end. */
  function AddRange(s: seq<Range>, from: int, to: int): seq<Range> {
    if s != [] && s[0].from <= to then [Range(Min(from, s[0].from), Max(to, s[0].to))] + s[1..]
    else [Range(from, to)] + s
  }

  /** A definition is where the first range begins, if that reaches before it; otherwise the
      value is dead and has a range of its own. */
  function AddDef(s: seq<Range>, pos: int): seq<Range> {
    if s != [] && s[0].from <= pos then s[0 := s[0].(from := pos)] else AddRange(s, pos, pos + 1)
  }

  /** Exactly what is covered afterwards: what was, the new range, and the gap before it
      when it is joined to a first range that ends earlier. */
  lemma AddRangeCovers(s: seq<Range>, from: int, to: int, p: int)
    requires Sorted(s) && from <= to
    ensures Covers(AddRange(s, from, to), p) <==>
            Covers(s, p) || from <= p < to || (s != [] && s[0].from <= to && s[0].to <= p < from)
  {
    var r := AddRange(s, from, to);
    if Covers(s, p) {
      var i :| 0 <= i < |s| && s[i].from <= p < s[i].to;
      if s[0].from <= to {
        assert i > 0 ==> r[i] == s[i];
        assert r[i].from <= p < r[i].to;
      } else {
        assert r[i + 1] == s[i];
      }
    }
    if from <= p < to || (s != [] && s[0].from <= to && s[0].to <= p < from) {
      GapCovered(s, from, to, p);
    }
    if Covers(r, p) {
      CoveredBefore(s, from, to, p);
    }
  }

  lemma CoveredBefore(s: seq<Range>, from: int, to: int, p: int)
    requires Sorted(s) && from <= to && Covers(AddRange(s, from, to), p)
    ensures Covers(s, p) || from <= p < to || (s != [] && s[0].from <= to && s[0].to <= p < from)
  {
    var r := AddRange(s, from, to);
    var i :| 0 <= i < |r| && r[i].from <= p < r[i].to;
    if s != [] && s[0].from <= to {
      if i > 0 {
        assert s[i] == r[i];
      } else {
        assert s[0].from <= p < s[0].to ==> Covers(s, p);
      }
    } else if i > 0 {
      assert r[i] == s[i - 1];
    }
  }

  lemma GapCovered(s: seq<Range>, from: int, to: int, p: int)
    requires Sorted(s) && from <= to
    requires (from <= p < to) || (s != [] && s[0].from <= to && s[0].to <= p < from)
    ensures Covers(AddRange(s, from, to), p)
  {
    var r := AddRange(s, from, to);
    assert r[0].from <= p < r[0].to;
  }

  /** The list stays in order exactly when a range that is joined to the first one ends before
      the second one begins. */
  lemma AddRangeSorted(s: seq<Range>, from: int, to: int)
    requires Sorted(s) && 0 <= from <= to
    ensures Sorted(AddRange(s, from, to)) <==> !(|s| > 1 && s[0].from <= to && to > s[1].from)
  {
    var r := AddRange(s, from, to);
    if |s| > 1 && s[0].from <= to && to > s[1].from {
      assert r[0].to > r[1].from;
    } else {
      forall i, j | 0 <= i < j < |r| ensures r[i].to <= r[j].from {
        if s != [] && s[0].from <= to {
          assert r[j] == s[j];
          if i == 0 {
            assert s[1].from <= s[j].from by {
              if j > 1 {
                assert s[1].to <= s[j].from;
              }
            }
          }
        } else {
          assert r[j] == s[j - 1];
          if s != [] && j > 1 {
            assert s[0].from <= s[0].to <= s[j - 1].from;
          }
        }
      }
    }
  }

  // ---------- intersects_at ----------

  ghost predicate Common(s: seq<Range>, t: seq<Range>, p: int) {
    Covers(s, p) && Covers(t, p)
  }

  /** What intersects_at takes for an intersection. An empty range inside another one counts. */
  predicate Meets(a: Range, b: Range) {
    || a.from < b.from < a.to
    || b.from < a.from < b.to
    || (a.from == b.from && a.from < a.to && b.from < b.to)
  }

  ghost predicate Meet(s: seq<Range>, t: seq<Range>) {
    exists i, j :: 0 <= i < |s| && 0 <= j < |t| && Meets(s[i], t[j])
  }

  /** Lists with a point in common meet; the other way round an empty range can spoil it. */
  lemma CommonMeet(s: seq<Range>, t: seq<Range>)
    ensures !Disjoint(s, t) ==> Meet(s, t)
    ensures NoEmpty(s) && NoEmpty(t) ==> (Meet(s, t) <==> !Disjoint(s, t))
  {
    if p :| Covers(s, p) && Covers(t, p) {
      var i :| 0 <= i < |s| && s[i].from <= p < s[i].to;
      var j :| 0 <= j < |t| && t[j].from <= p < t[j].to;
      assert Meets(s[i], t[j]);
    }
    if NoEmpty(s) && NoEmpty(t) && Meet(s, t) {
      var i, j :| 0 <= i < |s| && 0 <= j < |t| && Meets(s[i], t[j]);
      var p := Max(s[i].from, t[j].from);
      assert s[i].from <= p < s[i].to && t[j].from <= p < t[j].to;
      assert Common(s, t, p);
    }
  }

  /** Two lists that meet although they have no position in common. */
  lemma EmptyMeets()
    ensures var s, t := [Range(0, 5)], [Range(2, 2)];
            Sorted(s) && Sorted(t) && Meet(s, t) && Disjoint(s, t)
  {
    var s, t := [Range(0, 5)], [Range(2, 2)];
    assert Meets(s[0], t[0]);
    assert forall p :: !Covers(t, p);
  }

  /** No pair among the first i or the first j ranges meets. */
  ghost predicate LaterMeet(s: seq<Range>, t: seq<Range>, i: int, j: int) {
    forall k, l :: 0 <= k < |s| && 0 <= l < |t| && Meets(s[k], t[l]) ==> i <= k && j <= l
  }

  /** The first of the remaining ranges of s meets none of the remaining ones of t. */
  lemma PassedOver(s: seq<Range>, t: seq<Range>, i: nat, j: nat)
    requires Sorted(s) && Sorted(t) && i < |s| && j < |t| && LaterMeet(s, t, i, j)
    requires (s[i].from < t[j].from && s[i].to <= t[j].from) || (s[i].from == t[j].from && s[i].from == s[i].to)
    ensures LaterMeet(s, t, i + 1, j)
  {
    forall k, l | 0 <= k < |s| && 0 <= l < |t| && Meets(s[k], t[l]) ensures i + 1 <= k && j <= l {
      assert j < l ==> t[j].from <= t[j].to <= t[l].from;
    }
  }

  lemma MeetTurned(s: seq<Range>, t: seq<Range>, i: int, j: int)
    ensures LaterMeet(s, t, i, j) ==> LaterMeet(t, s, j, i)
  {
    if LaterMeet(s, t, i, j) {
      forall k, l | 0 <= k < |t| && 0 <= l < |s| && Meets(t[k], s[l]) ensures j <= k && i <= l {
        assert Meets(s[l], t[k]);
      }
    }
  }

  /** The two cursors of intersects_at: -1 exactly when no range of one list meets one of the
      other; otherwise the least position at which two of them meet, which no common
      position precedes. */
  method IntersectsAt(r1: seq<Range>, r2: seq<Range>) returns (at: int)
    requires Sorted(r1) && Sorted(r2)
    ensures at != -1 <==> Meet(r1, r2)
    ensures at != -1 ==> exists i, j ::
              && 0 <= i < |r1| && 0 <= j < |r2| && Meets(r1[i], r2[j]) && at == Max(r1[i].from, r2[j].from)
              && (r1[i].from < r1[i].to && r2[j].from < r2[j].to ==> Common(r1, r2, at))
    ensures at != -1 ==> forall i, j :: 0 <= i < |r1| && 0 <= j < |r2| && Meets(r1[i], r2[j]) ==>
              at <= Max(r1[i].from, r2[j].from)
    ensures at != -1 ==> forall p :: Common(r1, r2, p) ==> at <= p
  {
    hide LaterMeet;
    if r1 == [] || r2 == [] {
      return -1;
    }
    var i, j := 0, 0;
    FromTheStart(r1, r2);
    while true
      invariant 0 <= i < |r1| && 0 <= j < |r2| && LaterMeet(r1, r2, i, j)
      decreases |r1| - i + |r2| - j
    {
      var a, b := r1[i], r2[j];
      if (a.from < b.from && a.to <= b.from) || (a.from == b.from && a.from == a.to) {
        PassedOver(r1, r2, i, j);
        i := i + 1;
        if i == |r1| {
          NoneLeft(r1, r2, i, j);
          return -1;
        }
      } else if (b.from < a.from && b.to <= a.from) || (a.from == b.from && b.from == b.to) {
        MeetTurned(r1, r2, i, j);
        PassedOver(r2, r1, j, i);
        j := j + 1;
        MeetTurned(r2, r1, j, i);
        if j == |r2| {
          NoneLeft(r1, r2, i, j);
          return -1;
        }
      } else {
        at := if a.from < b.from then b.from else a.from;
        Found(r1, r2, i, j);
        return;
      }
    }
  }

  lemma FromTheStart(s: seq<Range>, t: seq<Range>)
    ensures LaterMeet(s, t, 0, 0)
  {
  }

  lemma NoneLeft(s: seq<Range>, t: seq<Range>, i: nat, j: nat)
    requires LaterMeet(s, t, i, j) && (i == |s| || j == |t|)
    ensures !Meet(s, t)
  {
  }

  lemma Found(s: seq<Range>, t: seq<Range>, i: nat, j: nat)
    requires Sorted(s) && Sorted(t) && i < |s| && j < |t| && LaterMeet(s, t, i, j) && Meets(s[i], t[j])
    ensures var at := Max(s[i].from, t[j].from);
            && at >= 0 && Meet(s, t)
            && (s[i].from < s[i].to && t[j].from < t[j].to ==> Common(s, t, at))
            && (forall k, l :: 0 <= k < |s| && 0 <= l < |t| && Meets(s[k], t[l]) ==> at <= Max(s[k].from, t[l].from))
            && (forall p :: Common(s, t, p) ==> at <= p)
  {
    var at := Max(s[i].from, t[j].from);
    if s[i].from < s[i].to && t[j].from < t[j].to {
      assert s[i].from <= at < s[i].to && t[j].from <= at < t[j].to;
    }
    forall k, l | 0 <= k < |s| && 0 <= l < |t| && Meets(s[k], t[l]) ensures at <= Max(s[k].from, t[l].from) {
      assert i < k ==> s[i].from <= s[i].to <= s[k].from;
      assert j < l ==> t[j].from <= t[j].to <= t[l].from;
    }
    forall p | Common(s, t, p) ensures at <= p {
      var k :| 0 <= k < |s| && s[k].from <= p < s[k].to;
      var l :| 0 <= l < |t| && t[l].from <= p < t[l].to;
      assert Meets(s[k], t[l]);
    }
  }
}
