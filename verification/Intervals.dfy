/** Merging of byte ranges: the merged ranges are sorted and apart, cover the same bytes, and have
    the same total length whether touching ranges are joined or not. */
module Intervals {
  import opened Sorting

  /** The bytes from `start` up to, not including, `end`. */
  datatype Interval = Interval(start: int, end: int)

  predicate Proper(list: seq<Interval>) {
    forall i :: 0 <= i < |list| ==> list[i].start <= list[i].end
  }

  // ---------------------------------------------------------------- covered bytes

  predicate Inside(r: Interval, p: int) {
    r.start <= p < r.end
  }

  function Span(r: Interval): set<int> {
    set p: int | r.start <= p < r.end && Inside(r, p)
  }

  function Covered(list: seq<Interval>): set<int> {
    if list == [] then {} else Span(list[0]) + Covered(list[1..])
  }

  function Length(list: seq<Interval>): int {
    if list == [] then 0 else list[0].end - list[0].start + Length(list[1..])
  }

  lemma {:induction false} SpanSize(r: Interval)
    requires r.start <= r.end
    ensures |Span(r)| == r.end - r.start
    decreases r.end - r.start
  {
    if r.start < r.end {
      var shorter := Interval(r.start, r.end - 1);
      SpanSize(shorter);
      assert Span(r) == Span(shorter) + {r.end - 1};
    } else {
      assert Span(r) == {};
    }
  }

  lemma UnionSize(a: set<int>, b: set<int>)
    ensures |a + b| <= |a| + |b|
    ensures |a + b| == |a| + |b| <==> a !! b
  {
    assert a + b == a + (b - a) && b == (b - a) + (b * a);
    assert |b| == |b - a| + |b * a|;
    if b * a == {} {
      assert a !! b;
    } else {
      assert |b * a| > 0;
    }
  }

  predicate Disjoint(list: seq<Interval>) {
    forall i, j :: 0 <= i < j < |list| ==> Span(list[i]) !! Span(list[j])
  }

  lemma {:induction false} CoveredBy(list: seq<Interval>, p: int)
    ensures p in Covered(list) <==> exists i :: 0 <= i < |list| && p in Span(list[i])
  {
    hide Span;
    if list != [] {
      CoveredBy(list[1..], p);
      if i :| 0 <= i < |list| && p in Span(list[i]) {
        if i > 0 {
          assert p in Span(list[1..][i - 1]);
        }
      }
      if i :| 0 <= i < |list[1..]| && p in Span(list[1..][i]) {
        assert p in Span(list[i + 1]);
      }
    }
  }

  lemma FirstApart(list: seq<Interval>)
    requires |list| > 0
    ensures Disjoint(list) <==> Span(list[0]) !! Covered(list[1..]) && Disjoint(list[1..])
  {
    hide Span;
    var rest := list[1..];
    if Disjoint(list) {
      forall p | p in Span(list[0]) ensures p !in Covered(rest) {
        CoveredBy(rest, p);
        forall i | 0 <= i < |rest| ensures p !in Span(rest[i]) {
          assert Span(list[0]) !! Span(list[i + 1]);
        }
      }
      forall i, j | 0 <= i < j < |rest| ensures Span(rest[i]) !! Span(rest[j]) {
        assert Span(list[i + 1]) !! Span(list[j + 1]);
      }
    }
    if Span(list[0]) !! Covered(rest) && Disjoint(rest) {
      forall i, j | 0 <= i < j < |list| ensures Span(list[i]) !! Span(list[j]) {
        if i == 0 {
          forall p | p in Span(list[j]) ensures p !in Span(list[0]) {
            assert p in Span(rest[j - 1]);
            CoveredBy(rest, p);
          }
        } else {
          assert Span(rest[i - 1]) !! Span(rest[j - 1]);
        }
      }
    }
  }

  /** The lengths of ranges add up to at least the number of bytes they cover, and to exactly that
      number if and only if no two overlap. */
  lemma {:induction false} LengthAndCover(list: seq<Interval>)
    requires Proper(list)
    ensures |Covered(list)| <= Length(list)
    ensures |Covered(list)| == Length(list) <==> Disjoint(list)
  {
    hide Disjoint, Span;
    if list == [] {
      assert Disjoint(list) by { Few(list); }
    } else {
      SpanSize(list[0]);
      LengthAndCover(list[1..]);
      UnionSize(Span(list[0]), Covered(list[1..]));
      FirstApart(list);
    }
  }

  lemma Few(list: seq<Interval>)
    requires list == []
    ensures Disjoint(list)
  {
  }

  // ---------------------------------------------------------------- sorting

  predicate Before(a: Interval, b: Interval) {
    a.start < b.start || (a.start == b.start && a.end <= b.end)
  }

  /** The ranges by start, then by end. */
  function Ordered(list: seq<Interval>): (sorted: seq<Interval>)
    ensures |sorted| == |list| && multiset(sorted) == multiset(list) && IsSorted(sorted, Before)
    ensures forall r :: r in sorted <==> r in list
  {
    SortSorts(list, Before);
    SortMembers(list, Before);
    Sort(list, Before)
  }

  /** The same ranges, by start, and by end where the starts are equal. */
  lemma OrderedExactly(list: seq<Interval>)
    ensures multiset(Ordered(list)) == multiset(list) && |Ordered(list)| == |list|
    ensures forall i, j :: 0 <= i < j < |list| ==>
              var a, b := Ordered(list)[i], Ordered(list)[j];
              a.start < b.start || (a.start == b.start && a.end <= b.end)
  {
    var sorted := Ordered(list);
    hide Ordered;
    forall i, j | 0 <= i < j < |list| ensures Before(sorted[i], sorted[j]) {
    }
  }

  lemma OrderedKeeps(list: seq<Interval>)
    ensures Covered(Ordered(list)) == Covered(list)
    ensures Proper(list) ==> Proper(Ordered(list))
  {
    hide Ordered, Covered, Span;
    forall p ensures p in Covered(Ordered(list)) <==> p in Covered(list) {
      CoveredBy(list, p);
      CoveredBy(Ordered(list), p);
      if i :| 0 <= i < |list| && p in Span(list[i]) {
        assert list[i] in Ordered(list);
      }
      if i :| 0 <= i < |Ordered(list)| && p in Span(Ordered(list)[i]) {
        assert Ordered(list)[i] in list;
      }
    }
    if Proper(list) {
      forall i | 0 <= i < |Ordered(list)| ensures Ordered(list)[i].start <= Ordered(list)[i].end {
        assert Ordered(list)[i] in list;
      }
    }
  }

  // ---------------------------------------------------------------- merging

  function Later(a: int, b: int): int {
    if a >= b then a else b
  }

  predicate Joins(last: Interval, r: Interval, mergeAdjacent: bool) {
    if mergeAdjacent then r.start <= last.end else r.start < last.end
  }

  function Absorb(merged: seq<Interval>, r: Interval, mergeAdjacent: bool): seq<Interval> {
    var n := |merged|;
    if n > 0 && Joins(merged[n - 1], r, mergeAdjacent)
    then merged[n - 1 := Interval(merged[n - 1].start, Later(merged[n - 1].end, r.end))]
    else merged + [r]
  }

  function Merged(merged: seq<Interval>, ranges: seq<Interval>, mergeAdjacent: bool): seq<Interval>
    decreases |ranges|
  {
    if ranges == [] then merged
    else Merged(Absorb(merged, ranges[0], mergeAdjacent), ranges[1..], mergeAdjacent)
  }

  /** In order and not overlapping; not even touching when touching ranges are joined. */
  predicate Apart(merged: seq<Interval>, mergeAdjacent: bool) {
    forall i, j :: 0 <= i < j < |merged| ==>
      merged[i].start <= merged[j].start
      && if mergeAdjacent then merged[i].end < merged[j].start
         else merged[i].end <= merged[j].start
  }

  predicate Follows(merged: seq<Interval>, r: Interval) {
    |merged| > 0 ==> merged[|merged| - 1].start <= r.start
  }

  lemma AbsorbApart(merged: seq<Interval>, r: Interval, mergeAdjacent: bool)
    requires Proper(merged) && Apart(merged, mergeAdjacent) && Follows(merged, r)
    requires r.start <= r.end
    ensures var next := Absorb(merged, r, mergeAdjacent);
            && Proper(next) && Apart(next, mergeAdjacent)
            && |next| > 0 && next[|next| - 1].start <= r.start
  {
    var n := |merged|;
    if n > 0 && Joins(merged[n - 1], r, mergeAdjacent) {
      assert merged[n - 1].start <= r.start;
    } else if n > 0 {
      assert Absorb(merged, r, mergeAdjacent)[n] == r;
    }
  }

  lemma {:induction false} CoveredAppend(list: seq<Interval>, r: Interval)
    ensures Covered(list + [r]) == Covered(list) + Span(r)
  {
    hide Span;
    if list == [] {
      assert [] + [r] == [r] && [r][1..] == [];
    } else {
      CoveredAppend(list[1..], r);
      assert (list + [r])[1..] == list[1..] + [r];
    }
  }

  lemma AbsorbCovers(merged: seq<Interval>, r: Interval, mergeAdjacent: bool)
    requires Proper(merged) && Follows(merged, r) && r.start <= r.end
    ensures Covered(Absorb(merged, r, mergeAdjacent)) == Covered(merged) + Span(r)
  {
    hide Covered;
    var n := |merged|;
    CoveredAppend(merged, r);
    if n > 0 && Joins(merged[n - 1], r, mergeAdjacent) {
      var last := merged[n - 1];
      var joined := Interval(last.start, Later(last.end, r.end));
      assert merged == merged[..n - 1] + [last];
      assert Absorb(merged, r, mergeAdjacent) == merged[..n - 1] + [joined];
      CoveredAppend(merged[..n - 1], last);
      CoveredAppend(merged[..n - 1], joined);
      assert Span(joined) == Span(last) + Span(r);
    }
  }

  lemma {:induction false} MergedFrom(merged: seq<Interval>, ranges: seq<Interval>,
                                      mergeAdjacent: bool)
    requires Proper(merged) && Apart(merged, mergeAdjacent) && Proper(ranges) && IsSorted(ranges, Before)
    requires |ranges| > 0 ==> Follows(merged, ranges[0])
    ensures var all := Merged(merged, ranges, mergeAdjacent);
            && Proper(all) && Apart(all, mergeAdjacent)
            && Covered(all) == Covered(merged) + Covered(ranges)
    decreases |ranges|
  {
    hide Span, Apart, Absorb;
    if |ranges| > 0 {
      var r := ranges[0];
      AbsorbApart(merged, r, mergeAdjacent);
      AbsorbCovers(merged, r, mergeAdjacent);
      TailSorted(ranges);
      MergedFrom(Absorb(merged, r, mergeAdjacent), ranges[1..], mergeAdjacent);
    }
  }

  lemma TailSorted(ranges: seq<Interval>)
    requires |ranges| > 0 && IsSorted(ranges, Before) && Proper(ranges)
    ensures IsSorted(ranges[1..], Before) && Proper(ranges[1..])
    ensures |ranges| > 1 ==> ranges[0].start <= ranges[1].start
  {
  }

  function MergeAll(ranges: seq<Interval>, mergeAdjacent: bool): seq<Interval> {
    Merged([], Ordered(ranges), mergeAdjacent)
  }

  lemma {:induction false} MergedAppend(merged: seq<Interval>, ranges: seq<Interval>, r: Interval,
                                        mergeAdjacent: bool)
    ensures Merged(merged, ranges + [r], mergeAdjacent)
            == Absorb(Merged(merged, ranges, mergeAdjacent), r, mergeAdjacent)
    decreases |ranges|
  {
    hide Absorb;
    if ranges == [] {
      assert ranges + [r] == [r] && [r][1..] == [];
    } else {
      assert (ranges + [r])[1..] == ranges[1..] + [r];
      MergedAppend(Absorb(merged, ranges[0], mergeAdjacent), ranges[1..], r, mergeAdjacent);
    }
  }

  /** The ranges among the first `n` that start past the end of every earlier one, or at the latest
      end when touching ranges stay apart. */
  ghost function Openers(sorted: seq<Interval>, n: nat, mergeAdjacent: bool): set<nat>
    requires n <= |sorted|
  {
    set i | 0 <= i < n && Opens(sorted, i, mergeAdjacent)
  }

  ghost predicate Opens(sorted: seq<Interval>, i: nat, mergeAdjacent: bool)
    requires i < |sorted|
  {
    forall j :: 0 <= j < i ==>
      if mergeAdjacent then sorted[j].end < sorted[i].start else sorted[j].end <= sorted[i].start
  }

  /** The last merged range ends where the ranges so far end. */
  ghost predicate EndsAt(merged: seq<Interval>, sorted: seq<Interval>, n: nat)
    requires 0 < n <= |sorted|
  {
    && |merged| > 0
    && (forall j :: 0 <= j < n ==> sorted[j].end <= merged[|merged| - 1].end)
    && (exists j :: 0 <= j < n && sorted[j].end == merged[|merged| - 1].end)
  }

  lemma AbsorbOpens(merged: seq<Interval>, sorted: seq<Interval>, n: nat, mergeAdjacent: bool)
    requires n < |sorted| && Proper(sorted) && (n == 0 ==> merged == []) && (n > 0 ==> EndsAt(merged, sorted, n))
    ensures var next := Absorb(merged, sorted[n], mergeAdjacent);
            && EndsAt(next, sorted, n + 1)
            && |next| == |merged| + if Opens(sorted, n, mergeAdjacent) then 1 else 0
  {
    var next, r := Absorb(merged, sorted[n], mergeAdjacent), sorted[n];
    if n > 0 {
      var last := merged[|merged| - 1];
      var j :| 0 <= j < n && sorted[j].end == last.end;
      assert Joins(last, r, mergeAdjacent) <==> !Opens(sorted, n, mergeAdjacent);
      if Joins(last, r, mergeAdjacent) {
        assert next[|next| - 1].end == Later(last.end, r.end);
      } else {
        assert next[|next| - 1] == r;
      }
      assert sorted[if r.end >= last.end then n else j].end == next[|next| - 1].end;
    } else {
      assert next == [r] && sorted[0].end == next[0].end;
    }
  }

  lemma {:induction false} MergedCount(sorted: seq<Interval>, n: nat, mergeAdjacent: bool)
    requires n <= |sorted| && Proper(sorted)
    ensures |Merged([], sorted[..n], mergeAdjacent)| == |Openers(sorted, n, mergeAdjacent)|
    ensures n > 0 ==> EndsAt(Merged([], sorted[..n], mergeAdjacent), sorted, n)
    decreases n
  {
    hide EndsAt, Opens, Absorb;
    if n == 0 {
      assert Openers(sorted, 0, mergeAdjacent) == {};
    } else {
      MergedCount(sorted, n - 1, mergeAdjacent);
      assert sorted[..n] == sorted[..n - 1] + [sorted[n - 1]];
      MergedAppend([], sorted[..n - 1], sorted[n - 1], mergeAdjacent);
      AbsorbOpens(Merged([], sorted[..n - 1], mergeAdjacent), sorted, n - 1, mergeAdjacent);
      assert Openers(sorted, n, mergeAdjacent)
        == Openers(sorted, n - 1, mergeAdjacent) + if Opens(sorted, n - 1, mergeAdjacent) then {n - 1} else {};
    }
  }

  /** There are as many merged ranges as ranges that no earlier one reaches, in sorted order. */
  lemma MergeCounts(ranges: seq<Interval>, mergeAdjacent: bool)
    requires Proper(ranges)
    ensures |Ordered(ranges)| == |ranges|
    ensures |MergeAll(ranges, mergeAdjacent)| == |Openers(Ordered(ranges), |ranges|, mergeAdjacent)|
  {
    hide Merged, Openers, Ordered;
    OrderedKeeps(ranges);
    var sorted := Ordered(ranges);
    MergedCount(sorted, |ranges|, mergeAdjacent);
    assert sorted[..|ranges|] == sorted;
  }

  lemma ApartIsDisjoint(list: seq<Interval>, mergeAdjacent: bool)
    requires Apart(list, mergeAdjacent)
    ensures Disjoint(list)
  {
    forall i, j | 0 <= i < j < |list| ensures Span(list[i]) !! Span(list[j]) {
      assert list[i].end <= list[j].start;
    }
  }

  /** The merged ranges are in order and apart, cover exactly the bytes of the inputs, and their
      total length is the number of these bytes, in either mode. */
  lemma MergeIsExact(ranges: seq<Interval>, mergeAdjacent: bool)
    requires Proper(ranges)
    ensures var merged := MergeAll(ranges, mergeAdjacent);
            && Proper(merged) && Apart(merged, mergeAdjacent)
            && Covered(merged) == Covered(ranges) && Length(merged) == |Covered(ranges)|
  {
    hide Ordered, Merged, Covered, Span, Apart, Length, IsSorted, Disjoint;
    OrderedKeeps(ranges);
    NothingApart(mergeAdjacent);
    MergedFrom([], Ordered(ranges), mergeAdjacent);
    var merged := MergeAll(ranges, mergeAdjacent);
    ApartIsDisjoint(merged, mergeAdjacent);
    LengthAndCover(merged);
    assert {} + Covered(ranges) == Covered(ranges);
  }

  lemma NothingApart(mergeAdjacent: bool)
    ensures Proper([]) && Apart([], mergeAdjacent) && Covered([]) == {}
  {
  }

  lemma ModesAgree(ranges: seq<Interval>)
    requires Proper(ranges)
    ensures Length(MergeAll(ranges, true)) == Length(MergeAll(ranges, false))
  {
    hide *;
    MergeIsExact(ranges, true);
    MergeIsExact(ranges, false);
  }

  /** The loop over the sorted ranges. */
  method MergeIntervals(ranges: seq<Interval>, mergeAdjacent: bool) returns (merged: seq<Interval>)
    ensures merged == MergeAll(ranges, mergeAdjacent)
  {
    hide Ordered, Merged;
    var sorted := Ordered(ranges);
    merged := [];
    assert sorted[0..] == sorted;
    var i := 0;
    while i < |sorted|
      invariant 0 <= i <= |sorted|
      invariant Merged(merged, sorted[i..], mergeAdjacent) == Merged([], sorted, mergeAdjacent)
    {
      MergedStep(merged, sorted[i..], mergeAdjacent);
      assert sorted[i..][1..] == sorted[i + 1..];
      var r, n := sorted[i], |merged|;
      if n > 0 && (if mergeAdjacent then r.start <= merged[n - 1].end else r.start < merged[n - 1].end) {
        merged := merged[n - 1 := Interval(merged[n - 1].start, Later(merged[n - 1].end, r.end))];
      } else {
        merged := merged + [r];
      }
      i := i + 1;
    }
    MergedDone(merged, sorted[i..], mergeAdjacent);
  }

  lemma MergedStep(merged: seq<Interval>, ranges: seq<Interval>, mergeAdjacent: bool)
    requires ranges != []
    ensures Merged(merged, ranges, mergeAdjacent)
            == Merged(Absorb(merged, ranges[0], mergeAdjacent), ranges[1..], mergeAdjacent)
  {
  }

  lemma MergedDone(merged: seq<Interval>, ranges: seq<Interval>, mergeAdjacent: bool)
    requires ranges == []
    ensures Merged(merged, ranges, mergeAdjacent) == merged
  {
  }
}
