/** Simulated placement of tensors in a layout order, and the byte metrics of a selection. */
module Placement {
  import opened Bytes
  import opened Common
  import opened Intervals
  import opened Sorting

  datatype Tensor = Tensor(size: Option<nat>, absoluteStart: nat, gapBefore: Option<nat>)

  datatype Failure = UnresolvedSize | BadAlignment

  /** Start of every tensor in layout order, with the byte counts of the simulation. */
  datatype Simulated = Simulated(starts: seq<nat>, payload: nat, padding: nat)

  // ---------------------------------------------------------------- placing

  predicate PowerOfTwo(a: int)
    decreases a
  {
    a == 1 || (a > 1 && a % 2 == 0 && PowerOfTwo(a / 2))
  }

  predicate InRange(order: seq<nat>, count: nat) {
    forall i :: 0 <= i < |order| ==> order[i] < count
  }

  predicate SizesKnown(order: seq<nat>, tensors: seq<Tensor>)
    requires InRange(order, |tensors|)
  {
    forall i :: 0 <= i < |order| ==> tensors[order[i]].size.Some?
  }

  function Starts(order: seq<nat>, tensors: seq<Tensor>, cursor: nat, alignment: nat): (s: seq<nat>)
    requires InRange(order, |tensors|) && SizesKnown(order, tensors) && alignment > 0
    ensures |s| == |order|
    decreases |order|
  {
    if order == [] then []
    else
      var start := AlignUp(cursor, alignment);
      [start] + Starts(order[1..], tensors, start + tensors[order[0]].size.value, alignment)
  }

  function TotalSize(order: seq<nat>, tensors: seq<Tensor>): nat
    requires InRange(order, |tensors|) && SizesKnown(order, tensors)
    decreases |order|
  {
    if order == [] then 0 else tensors[order[0]].size.value + TotalSize(order[1..], tensors)
  }

  /** Where the last placed tensor ends. */
  function EndOf(order: seq<nat>, tensors: seq<Tensor>, cursor: nat, alignment: nat): nat
    requires InRange(order, |tensors|) && SizesKnown(order, tensors) && alignment > 0
    decreases |order|
  {
    if order == [] then cursor
    else
      EndOf(order[1..], tensors, AlignUp(cursor, alignment) + tensors[order[0]].size.value, alignment)
  }

  /** Every start is aligned, and the tensors follow each other without overlap. */
  predicate WellPlaced(starts: seq<nat>, order: seq<nat>, tensors: seq<Tensor>, cursor: nat,
                       alignment: nat)
    requires |starts| == |order| && alignment > 0
    requires InRange(order, |tensors|) && SizesKnown(order, tensors)
  {
    && (forall i :: 0 <= i < |starts| ==> cursor <= starts[i] && starts[i] % alignment == 0)
    && (forall i, j :: 0 <= i < j < |starts| ==>
          starts[i] + tensors[order[i]].size.value <= starts[j])
  }

  lemma {:induction false} StartsApart(order: seq<nat>, tensors: seq<Tensor>, cursor: nat,
                                       alignment: nat)
    requires InRange(order, |tensors|) && SizesKnown(order, tensors) && alignment > 0
    ensures WellPlaced(Starts(order, tensors, cursor, alignment), order, tensors, cursor, alignment)
    decreases |order|
  {
    hide AlignUp, WellPlaced;
    if order == [] {
      NothingToPlace(order, tensors, cursor, alignment);
    } else {
      var start := AlignUp(cursor, alignment);
      AlignMultiple(cursor, alignment, 1);
      var end := start + tensors[order[0]].size.value;
      StartsApart(order[1..], tensors, end, alignment);
      PushFront(order, tensors, start, Starts(order[1..], tensors, end, alignment), cursor, alignment);
    }
  }

  /** No start is later than alignment makes it: the gap before it is less than the alignment. */
  lemma {:induction false} StartsTight(order: seq<nat>, tensors: seq<Tensor>, cursor: nat, alignment: nat,
                                       i: nat)
    requires InRange(order, |tensors|) && SizesKnown(order, tensors) && alignment > 0 && i < |order|
    ensures var s := Starts(order, tensors, cursor, alignment);
            var before := if i == 0 then cursor else s[i - 1] + tensors[order[i - 1]].size.value;
            before <= s[i] < before + alignment
    decreases i
  {
    hide AlignUp;
    var end := AlignUp(cursor, alignment) + tensors[order[0]].size.value;
    if i > 0 {
      StartsTight(order[1..], tensors, end, alignment, i - 1);
    }
  }

  /** Alignments are accepted exactly if they are powers of two. */
  lemma PowersOfTwo(a: int)
    ensures PowerOfTwo(a) <==> exists k: nat :: a == Power2(k)
  {
    if PowerOfTwo(a) {
      var k := Exponent(a);
      assert a == Power2(k);
    }
    if k: nat :| a == Power2(k) {
      PowerPasses(k);
    }
  }

  lemma {:induction false} Exponent(a: int) returns (k: nat)
    requires PowerOfTwo(a)
    ensures a == Power2(k)
    decreases a
  {
    if a == 1 {
      k := 0;
    } else {
      var j := Exponent(a / 2);
      k := j + 1;
    }
  }

  lemma {:induction false} PowerPasses(k: nat)
    ensures PowerOfTwo(Power2(k))
  {
    if k > 0 {
      PowerPasses(k - 1);
      assert Power2(k) / 2 == Power2(k - 1) && Power2(k) % 2 == 0;
    }
  }

  lemma NothingToPlace(order: seq<nat>, tensors: seq<Tensor>, cursor: nat, alignment: nat)
    requires order == [] && alignment > 0
    ensures WellPlaced([], order, tensors, cursor, alignment)
  {
  }

  lemma PushFront(order: seq<nat>, tensors: seq<Tensor>, start: nat, rest: seq<nat>, cursor: nat,
                  alignment: nat)
    requires InRange(order, |tensors|) && SizesKnown(order, tensors) && |order| == |rest| + 1
    requires alignment > 0 && start >= cursor && start % alignment == 0
    requires WellPlaced(rest, order[1..], tensors, start + tensors[order[0]].size.value, alignment)
    ensures WellPlaced([start] + rest, order, tensors, cursor, alignment)
  {
    var s := [start] + rest;
    forall i, j | 0 <= i < j < |s| ensures s[i] + tensors[order[i]].size.value <= s[j] {
      assert s[j] == rest[j - 1];
      if i > 0 {
        assert s[i] == rest[i - 1] && order[i] == order[1..][i - 1];
      }
    }
  }

  lemma EarlierEnds(starts: seq<nat>, order: seq<nat>, tensors: seq<Tensor>, cursor: nat,
                    alignment: nat, i: nat, j: nat)
    requires |starts| == |order| && alignment > 0 && i < j < |order|
    requires InRange(order, |tensors|) && SizesKnown(order, tensors)
    requires WellPlaced(starts, order, tensors, cursor, alignment)
    ensures starts[i] + tensors[order[i]].size.value <= starts[j]
  {
  }

  lemma AppendKnown(order: seq<nat>, t: nat, tensors: seq<Tensor>)
    requires InRange(order, |tensors|) && SizesKnown(order, tensors)
    requires t < |tensors| && tensors[t].size.Some?
    ensures InRange(order + [t], |tensors|) && SizesKnown(order + [t], tensors)
  {
  }

  /** Extends a prefix of an order by one tensor. */
  lemma {:induction false} StartsAppend(order: seq<nat>, t: nat, tensors: seq<Tensor>, cursor: nat,
                                        alignment: nat)
    requires InRange(order, |tensors|) && SizesKnown(order, tensors) && alignment > 0
    requires t < |tensors| && tensors[t].size.Some?
    ensures InRange(order + [t], |tensors|) && SizesKnown(order + [t], tensors)
    ensures var end := EndOf(order, tensors, cursor, alignment);
            && Starts(order + [t], tensors, cursor, alignment)
               == Starts(order, tensors, cursor, alignment) + [AlignUp(end, alignment)]
            && EndOf(order + [t], tensors, cursor, alignment)
               == AlignUp(end, alignment) + tensors[t].size.value
    ensures TotalSize(order + [t], tensors) == TotalSize(order, tensors) + tensors[t].size.value
    decreases |order|
  {
    hide AlignUp;
    AppendKnown(order, t, tensors);
    if order == [] {
      assert order + [t] == [t] && [t][1..] == [];
    } else {
      var all := order + [t];
      assert all[1..] == order[1..] + [t];
      StartsAppend(order[1..], t, tensors, AlignUp(cursor, alignment) + tensors[order[0]].size.value,
                   alignment);
    }
  }

  lemma PrefixKnown(order: seq<nat>, tensors: seq<Tensor>, n: nat)
    requires n < |order| && InRange(order, |tensors|)
    requires InRange(order[..n], |tensors|) && SizesKnown(order[..n], tensors)
    requires tensors[order[n]].size.Some?
    ensures InRange(order[..n] + [order[n]], |tensors|)
    ensures SizesKnown(order[..n] + [order[n]], tensors) && order[..n + 1] == order[..n] + [order[n]]
  {
  }

  /** Any layout but the source order: fails exactly on an unresolved size, or on a bad alignment
      if there is anything to place; payload and padding account for every byte up to the end. */
  method SimulateLayout(order: seq<nat>, tensors: seq<Tensor>, dataStart: nat, alignment: int)
      returns (r: Result<Simulated, Failure>)
    requires InRange(order, |tensors|)
    ensures r.Ok? <==> SizesKnown(order, tensors) && (order == [] || PowerOfTwo(alignment))
    ensures r == Err(BadAlignment) <==>
              order != [] && tensors[order[0]].size.Some? && !PowerOfTwo(alignment)
    ensures r.Ok? && order != [] ==>
              && r.value.starts == Starts(order, tensors, dataStart, alignment)
              && r.value.payload == TotalSize(order, tensors)
              && dataStart + r.value.payload + r.value.padding
                 == EndOf(order, tensors, dataStart, alignment)
    ensures r.Ok? && order == [] ==> r.value == Simulated([], 0, 0)
  {
    hide Starts, TotalSize, EndOf, AlignUp;
    var starts: seq<nat> := [];
    var cursor, payload, padding := dataStart, 0, 0;
    if order != [] && PowerOfTwo(alignment) {
      NothingPlaced(order[..0], tensors, dataStart, alignment);
    }
    var i := 0;
    while i < |order|
      invariant 0 <= i <= |order|
      invariant InRange(order[..i], |tensors|) && SizesKnown(order[..i], tensors)
      invariant i > 0 ==> PowerOfTwo(alignment)
      invariant PowerOfTwo(alignment) && order != [] ==>
        && starts == Starts(order[..i], tensors, dataStart, alignment)
        && cursor == EndOf(order[..i], tensors, dataStart, alignment)
        && payload == TotalSize(order[..i], tensors)
      invariant dataStart + payload + padding == cursor
      invariant i == 0 ==> starts == [] && payload == 0 && padding == 0
      invariant 0 <= payload && 0 <= padding
    {
      var tensor := tensors[order[i]];
      if tensor.size.None? {
        return Err(UnresolvedSize);
      }
      if !PowerOfTwo(alignment) {
        return Err(BadAlignment);
      }
      var start := AlignUp(cursor, alignment);
      PrefixKnown(order, tensors, i);
      StartsAppend(order[..i], order[i], tensors, dataStart, alignment);
      padding := padding + (start - cursor);
      starts := starts + [start];
      cursor := start + tensor.size.value;
      payload := payload + tensor.size.value;
      i := i + 1;
    }
    assert order[..i] == order;
    return Ok(Simulated(starts, payload, padding));
  }

  lemma NothingPlaced(order: seq<nat>, tensors: seq<Tensor>, cursor: nat, alignment: nat)
    requires order == [] && alignment > 0
    ensures Starts(order, tensors, cursor, alignment) == []
    ensures EndOf(order, tensors, cursor, alignment) == cursor && TotalSize(order, tensors) == 0
  {
  }

  // ---------------------------------------------------------------- metrics of a selection

  datatype Placed = Placed(start: nat, size: Option<nat>)

  datatype Metric = Metric(tensorCount: nat, semanticBytes: nat, physicalBytes: int,
                           rangeCount: nat, firstByte: Option<int>, lastByte: Option<int>,
                           physicalSpan: int)

  /** The ranges of the tensors whose size is known. */
  function Ranges(selected: seq<Placed>): (ranges: seq<Interval>)
    ensures Proper(ranges)
  {
    if selected == [] then []
    else
      (if selected[0].size.None? then []
       else [Interval(selected[0].start, selected[0].start + selected[0].size.value)])
      + Ranges(selected[1..])
  }

  function Semantic(selected: seq<Placed>): nat {
    if selected == [] then 0
    else (if selected[0].size.None? then 0 else selected[0].size.value) + Semantic(selected[1..])
  }

  lemma {:induction false} SemanticIsLength(selected: seq<Placed>)
    ensures Length(Ranges(selected)) == Semantic(selected)
  {
    if selected != [] {
      var rest := Ranges(selected[1..]);
      SemanticIsLength(selected[1..]);
      if selected[0].size.Some? {
        assert Ranges(selected)[1..] == rest;
      } else {
        assert [] + rest == rest;
      }
    }
  }

  function Earliest(list: seq<Interval>): (p: Option<int>)
    ensures p.None? <==> list == []
    ensures p.Some? ==> forall i :: 0 <= i < |list| ==> p.value <= list[i].start
    ensures p.Some? ==> exists i :: 0 <= i < |list| && p.value == list[i].start
  {
    if list == [] then None
    else
      var rest := Earliest(list[1..]);
      assert forall i :: 0 < i < |list| ==> list[i] == list[1..][i - 1];
      if rest.None? || list[0].start <= rest.value then Some(list[0].start) else rest
  }

  function Latest(list: seq<Interval>): (p: Option<int>)
    ensures p.None? <==> list == []
    ensures p.Some? ==> forall i :: 0 <= i < |list| ==> list[i].end <= p.value
    ensures p.Some? ==> exists i :: 0 <= i < |list| && p.value == list[i].end
  {
    if list == [] then None
    else
      var rest := Latest(list[1..]);
      assert forall i :: 0 < i < |list| ==> list[i] == list[1..][i - 1];
      if rest.None? || list[0].end >= rest.value then Some(list[0].end) else rest
  }

  /** `lo` is the least start and `hi` the greatest end. */
  ghost predicate Hull(list: seq<Interval>, lo: int, hi: int) {
    && (forall i :: 0 <= i < |list| ==> lo <= list[i].start && list[i].end <= hi)
    && (exists i :: 0 <= i < |list| && list[i].start == lo)
    && (exists i :: 0 <= i < |list| && list[i].end == hi)
  }

  lemma HullIs(list: seq<Interval>, lo: int, hi: int)
    requires Hull(list, lo, hi)
    ensures Earliest(list) == Some(lo) && Latest(list) == Some(hi)
  {
    hide Earliest, Latest;
  }

  lemma AbsorbKeepsHull(merged: seq<Interval>, r: Interval, rest: seq<Interval>, mergeAdjacent: bool,
                        lo: int, hi: int)
    requires Follows(merged, r) && Hull(merged + [r] + rest, lo, hi)
    ensures Hull(Absorb(merged, r, mergeAdjacent) + rest, lo, hi)
  {
    var n, all, next := |merged|, merged + [r] + rest, Absorb(merged, r, mergeAdjacent) + rest;
    if n > 0 && Joins(merged[n - 1], r, mergeAdjacent) {
      var first :| 0 <= first < |all| && all[first].start == lo;
      var last :| 0 <= last < |all| && all[last].end == hi;
      assert all[n] == r && all[n - 1] == merged[n - 1];
      assert forall i :: n < i < |all| ==> all[i] == next[i - 1];
      forall i | 0 <= i < |next| ensures lo <= next[i].start && next[i].end <= hi {
        if i < n {
          assert all[i] == merged[i];
        } else {
          assert next[i] == all[i + 1];
        }
      }
      assert next[if first == n then n - 1 else if first < n then first else first - 1].start == lo;
      assert next[if last == n then n - 1 else if last < n then last else last - 1].end == hi;
    } else {
      assert next == all;
    }
  }

  lemma {:induction false} MergedKeepsHull(merged: seq<Interval>, ranges: seq<Interval>, mergeAdjacent: bool,
                                           lo: int, hi: int)
    requires Proper(merged) && Apart(merged, mergeAdjacent) && Proper(ranges) && IsSorted(ranges, Before)
    requires |ranges| > 0 ==> Follows(merged, ranges[0])
    requires Hull(merged + ranges, lo, hi)
    ensures Hull(Merged(merged, ranges, mergeAdjacent), lo, hi)
    decreases |ranges|
  {
    hide Hull, Absorb, Apart;
    if |ranges| == 0 {
      assert merged + ranges == merged;
    } else {
      var r := ranges[0];
      AbsorbApart(merged, r, mergeAdjacent);
      TailSorted(ranges);
      assert merged + ranges == merged + [r] + ranges[1..];
      AbsorbKeepsHull(merged, r, ranges[1..], mergeAdjacent, lo, hi);
      MergedKeepsHull(Absorb(merged, r, mergeAdjacent), ranges[1..], mergeAdjacent, lo, hi);
    }
  }

  lemma HasHull(list: seq<Interval>)
    requires list != []
    ensures Earliest(list).Some? && Latest(list).Some?
    ensures Hull(list, Earliest(list).value, Latest(list).value)
  {
    hide Earliest, Latest;
  }

  lemma SameHull(a: seq<Interval>, b: seq<Interval>, lo: int, hi: int)
    requires (forall r :: r in a <==> r in b) && Hull(a, lo, hi)
    ensures Hull(b, lo, hi)
  {
    forall i | 0 <= i < |b| ensures lo <= b[i].start && b[i].end <= hi {
      assert b[i] in a;
    }
    var first :| 0 <= first < |a| && a[first].start == lo;
    var last :| 0 <= last < |a| && a[last].end == hi;
    assert a[first] in b && a[last] in b;
  }

  /** Merging keeps the first and the last byte. */
  lemma MergeKeepsEnds(ranges: seq<Interval>, mergeAdjacent: bool)
    requires Proper(ranges)
    ensures Earliest(MergeAll(ranges, mergeAdjacent)) == Earliest(ranges)
    ensures Latest(MergeAll(ranges, mergeAdjacent)) == Latest(ranges)
  {
    hide Earliest, Latest, Hull, Merged, Ordered, Apart;
    NothingApart(mergeAdjacent);
    OrderedKeeps(ranges);
    var sorted := Ordered(ranges);
    if ranges == [] {
      NothingMerged(sorted, mergeAdjacent);
    } else {
      HasHull(ranges);
      var lo, hi := Earliest(ranges).value, Latest(ranges).value;
      SameHull(ranges, sorted, lo, hi);
      assert [] + sorted == sorted;
      MergedKeepsHull([], sorted, mergeAdjacent, lo, hi);
      HullIs(MergeAll(ranges, mergeAdjacent), lo, hi);
    }
  }

  lemma NothingMerged(ranges: seq<Interval>, mergeAdjacent: bool)
    requires ranges == []
    ensures Merged([], ranges, mergeAdjacent) == ranges
  {
  }

  /** The physical bytes are the bytes the selection covers: never more than the payload, equal to
      it exactly when no two tensors overlap, and never more than the span. */
  method MeasureSelection(selected: seq<Placed>, mergeAdjacent: bool) returns (m: Metric)
    ensures m.tensorCount == |selected| && m.semanticBytes == Semantic(selected)
    ensures m.rangeCount == |MergeAll(Ranges(selected), mergeAdjacent)|
    ensures m.physicalBytes == |Covered(Ranges(selected))|
    ensures m.physicalBytes <= m.semanticBytes
    ensures m.physicalBytes == m.semanticBytes <==> Disjoint(Ranges(selected))
    ensures m.firstByte.Some? == m.lastByte.Some? == (m.rangeCount > 0) == (Ranges(selected) != [])
    ensures m.firstByte.Some? ==> Hull(Ranges(selected), m.firstByte.value, m.lastByte.value)
    ensures m.firstByte.Some? ==>
              m.physicalSpan == m.lastByte.value - m.firstByte.value
              && forall p :: p in Covered(Ranges(selected)) ==>
                   m.firstByte.value <= p < m.lastByte.value
    ensures m.physicalBytes <= m.physicalSpan
  {
    hide Ranges, Length, Covered, Disjoint, Ordered, Merged, Earliest, Latest, Span, Apart, Hull;
    var ranges := Ranges(selected);
    MergeKeepsEnds(ranges, mergeAdjacent);
    if ranges != [] {
      HasHull(ranges);
    }
    var extents := MergeIntervals(ranges, mergeAdjacent);
    MergeIsExact(ranges, mergeAdjacent);
    LengthAndCover(ranges);
    SemanticIsLength(selected);
    var first, last := Earliest(extents), Latest(extents);
    var span := if first.Some? && last.Some? then last.value - first.value else 0;
    SpanHolds(extents);
    m := Metric(|selected|, Semantic(selected), Length(extents), |extents|, first, last, span);
  }

  lemma SpanHolds(list: seq<Interval>)
    requires Proper(list)
    ensures list != [] ==>
              (forall p :: p in Covered(list) ==> Earliest(list).value <= p < Latest(list).value)
              && |Covered(list)| <= Latest(list).value - Earliest(list).value
    ensures list == [] ==> |Covered(list)| == 0
  {
    hide Earliest, Latest, Covered;
    if list == [] {
      assert Covered(list) == {} by { NothingCovered(list); }
    } else {
      var whole := Interval(Earliest(list).value, Latest(list).value);
      assert whole.start <= list[0].start <= list[0].end <= whole.end;
      forall p | p in Covered(list) ensures p in Span(whole) {
        CoveredBy(list, p);
      }
      SpanSize(whole);
      SubsetSize(Covered(list), Span(whole));
    }
  }

  lemma NothingCovered(list: seq<Interval>)
    requires list == []
    ensures Covered(list) == {}
  {
  }

  // ---------------------------------------------------------------- the same in every layout

  predicate Distinct(order: seq<nat>) {
    forall i, j :: 0 <= i < j < |order| ==> order[i] != order[j]
  }

  /** The chosen tensors at the places a layout gave them. */
  function Chosen(chosen: seq<nat>, order: seq<nat>, starts: seq<nat>, tensors: seq<Tensor>)
      : (s: seq<Placed>)
    requires |starts| == |order| && InRange(order, |tensors|)
    requires forall i :: 0 <= i < |chosen| ==> chosen[i] in order
    ensures |s| == |chosen|
  {
    seq(|chosen|, i requires 0 <= i < |chosen| =>
      Placed(starts[IndexOf(order, chosen[i])], tensors[chosen[i]].size))
  }

  lemma {:induction false} RangesOf(selected: seq<Placed>)
    requires forall i :: 0 <= i < |selected| ==> selected[i].size.Some?
    ensures |Ranges(selected)| == |selected|
    ensures forall i :: 0 <= i < |selected| ==>
              Ranges(selected)[i]
              == Interval(selected[i].start, selected[i].start + selected[i].size.value)
  {
    if selected != [] {
      RangesOf(selected[1..]);
    }
  }

  /** Any selection of tensors that a layout other than the source order placed covers exactly its
      payload. The payload does not depend on the layout, so neither do the physical bytes. */
  lemma PhysicalIsPayload(order: seq<nat>, tensors: seq<Tensor>, dataStart: nat, alignment: nat,
                          chosen: seq<nat>)
    requires InRange(order, |tensors|) && SizesKnown(order, tensors) && alignment > 0
    requires Distinct(chosen) && forall i :: 0 <= i < |chosen| ==> chosen[i] in order
    ensures InRange(chosen, |tensors|) && SizesKnown(chosen, tensors)
    ensures var starts := Starts(order, tensors, dataStart, alignment);
            var selected := Chosen(chosen, order, starts, tensors);
            && Disjoint(Ranges(selected)) && Semantic(selected) == TotalSize(chosen, tensors)
            && |Covered(Ranges(selected))| == TotalSize(chosen, tensors)
  {
    hide Starts, Ranges, Covered, Semantic, TotalSize, Span, Disjoint, WellPlaced;
    var starts := Starts(order, tensors, dataStart, alignment);
    var selected := Chosen(chosen, order, starts, tensors);
    StartsApart(order, tensors, dataStart, alignment);
    ChosenKnown(order, tensors, chosen);
    RangesOf(selected);
    var ranges := Ranges(selected);
    assert Disjoint(ranges) by {
      forall i, j | 0 <= i < j < |ranges| ensures Span(ranges[i]) !! Span(ranges[j]) {
        var a, b := IndexOf(order, chosen[i]), IndexOf(order, chosen[j]);
        assert a != b;
        if a < b {
          EarlierEnds(starts, order, tensors, dataStart, alignment, a, b);
        } else {
          EarlierEnds(starts, order, tensors, dataStart, alignment, b, a);
        }
        Separate(ranges[i], ranges[j]);
      }
      DisjointFrom(ranges);
    }
    LengthAndCover(ranges);
    SemanticIsLength(selected);
    SemanticIsTotal(chosen, selected, tensors);
  }

  lemma ChosenKnown(order: seq<nat>, tensors: seq<Tensor>, chosen: seq<nat>)
    requires InRange(order, |tensors|) && SizesKnown(order, tensors)
    requires forall i :: 0 <= i < |chosen| ==> chosen[i] in order
    ensures InRange(chosen, |tensors|) && SizesKnown(chosen, tensors)
  {
  }

  lemma Separate(a: Interval, b: Interval)
    requires a.end <= b.start || b.end <= a.start
    ensures Span(a) !! Span(b)
  {
  }

  lemma DisjointFrom(list: seq<Interval>)
    requires forall i, j :: 0 <= i < j < |list| ==> Span(list[i]) !! Span(list[j])
    ensures Disjoint(list)
  {
  }

  lemma {:induction false} SemanticIsTotal(chosen: seq<nat>, selected: seq<Placed>, tensors: seq<Tensor>)
    requires InRange(chosen, |tensors|) && SizesKnown(chosen, tensors) && |selected| == |chosen|
    requires forall i :: 0 <= i < |chosen| ==> selected[i].size == tensors[chosen[i]].size
    ensures Semantic(selected) == TotalSize(chosen, tensors)
    decreases |chosen|
  {
    if chosen != [] {
      SemanticIsTotal(chosen[1..], selected[1..], tensors);
    }
  }
}
