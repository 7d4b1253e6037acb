/**
 Exact segmentation: the cheapest way to cover a range by consecutive pieces of allowed
 lengths whose costs are known, by dynamic programming over prefix ends.
 */
module Segmentation {
  import opened Common

  /** A piece of the range, by its start and its length. */
  datatype Piece = Piece(start: nat, length: nat)

  /** A problem: allowed lengths, in order of preference, and the cost of each (start, length). */
  datatype Problem = Problem(lengths: seq<nat>, costs: map<Piece, real>)
  {
    ghost predicate Valid() {
      forall i :: 0 <= i < |lengths| ==> lengths[i] > 0
    }

    predicate Allowed(p: Piece) {
      p.length in lengths && p in costs
    }
  }

  // ---------------------------------------------------------------- what a segmentation is

  /** Allowed pieces that follow one another from 0 and end at `total`. */
  ghost predicate Covers(problem: Problem, pieces: seq<Piece>, total: nat)
    decreases |pieces|
  {
    if pieces == [] then total == 0
    else
      var last := pieces[|pieces| - 1];
      && problem.Allowed(last)
      && last.start + last.length == total
      && Covers(problem, pieces[..|pieces| - 1], last.start)
  }

  ghost function Cost(problem: Problem, pieces: seq<Piece>): real
    requires forall i :: 0 <= i < |pieces| ==> pieces[i] in problem.costs
  {
    if pieces == [] then 0.0
    else Cost(problem, pieces[..|pieces| - 1]) + problem.costs[pieces[|pieces| - 1]]
  }

  /** Costs add up over the pieces. */
  lemma {:induction false} CostAdds(problem: Problem, a: seq<Piece>, b: seq<Piece>)
    requires forall i :: 0 <= i < |a| ==> a[i] in problem.costs
    requires forall i :: 0 <= i < |b| ==> b[i] in problem.costs
    ensures Cost(problem, a + b) == Cost(problem, a) + Cost(problem, b)
    ensures |b| == 1 ==> Cost(problem, b) == problem.costs[b[0]]
    decreases |b|
  {
    if b == [] {
      assert a + b == a;
    } else {
      var last := |b| - 1;
      assert (a + b)[..|a + b| - 1] == a + b[..last];
      CostAdds(problem, a, b[..last]);
    }
  }

  lemma {:induction false} CoversPriced(problem: Problem, pieces: seq<Piece>, total: nat)
    requires Covers(problem, pieces, total)
    ensures forall i :: 0 <= i < |pieces| ==> pieces[i] in problem.costs
    decreases |pieces|
  {
    if pieces != [] {
      CoversPriced(problem, pieces[..|pieces| - 1], pieces[|pieces| - 1].start);
    }
  }

  ghost function CoverCost(problem: Problem, pieces: seq<Piece>, total: nat): real
    requires Covers(problem, pieces, total)
  {
    CoversPriced(problem, pieces, total);
    Cost(problem, pieces)
  }

  ghost predicate Coverable(problem: Problem, total: nat) {
    exists pieces :: Covers(problem, pieces, total)
  }

  /** `value` is the least cost over all segmentations of [0, end). */
  ghost predicate IsBest(problem: Problem, end: nat, value: real) {
    forall pieces :: Covers(problem, pieces, end) ==> value <= CoverCost(problem, pieces, end)
  }

  // ---------------------------------------------------------------- the table

  /** Best cost per end (None stands for infinity) and the last piece achieving it. */
  datatype Row = Row(best: Option<real>, previous: Option<Piece>)

  /** What the row of `end` promises, given that the earlier rows are done. */
  ghost predicate RowDone(problem: Problem, rows: seq<Row>, end: nat)
    requires end < |rows|
  {
    var row := rows[end];
    && (row.best.None? <==> !Coverable(problem, end))
    && (end == 0 ==> row.best == Some(0.0))
    && (row.best.Some? ==> IsBest(problem, end, row.best.value))
    && (row.previous.Some? <==> row.best.Some? && end > 0)
    && (row.previous.Some? ==> LinkOk(problem, rows, end))
  }

  /** The link of `end` is an allowed piece that ends there and explains the best cost. */
  ghost predicate LinkOk(problem: Problem, rows: seq<Row>, end: nat)
    requires end < |rows| && rows[end].previous.Some? && rows[end].best.Some?
  {
    var p := rows[end].previous.value;
    && problem.Allowed(p) && p.length > 0 && p.start + p.length == end
    && rows[p.start].best.Some?
    && rows[end].best.value == rows[p.start].best.value + problem.costs[p]
  }

  /** Extending a segmentation by one allowed piece. */
  lemma Extend(problem: Problem, pieces: seq<Piece>, start: nat, p: Piece)
    requires Covers(problem, pieces, start) && problem.Allowed(p) && p.start == start
    ensures Covers(problem, pieces + [p], start + p.length)
    ensures CoverCost(problem, pieces + [p], start + p.length) == CoverCost(problem, pieces, start) + problem.costs[p]
  {
    var whole := pieces + [p];
    assert whole[..|whole| - 1] == pieces;
    CoversPriced(problem, pieces, start);
    CoversPriced(problem, whole, start + p.length);
  }

  /** After trying the first `k` lengths: the row is the best over segmentations whose last
      piece has one of those lengths. */
  ghost predicate Tried(problem: Problem, rows: seq<Row>, end: nat, k: nat, row: Row)
    requires end < |rows| && k <= |problem.lengths|
  {
    && (row.previous.Some? <==> row.best.Some?)
    && (row.best.Some? ==>
          var p := row.previous.value;
          && problem.Allowed(p) && p.length > 0 && p.start + p.length == end && rows[p.start].best.Some?
          && row.best.value == rows[p.start].best.value + problem.costs[p])
    && forall i :: 0 <= i < k ==> TriedLength(problem, rows, end, problem.lengths[i], row)
  }

  ghost predicate TriedLength(problem: Problem, rows: seq<Row>, end: nat, length: nat, row: Row)
    requires end < |rows|
  {
    0 < length <= end && rows[end - length].best.Some? && Piece(end - length, length) in problem.costs
    ==> && row.best.Some?
        && row.best.value <= rows[end - length].best.value + problem.costs[Piece(end - length, length)]
  }

  /** A fully tried row is done. */
  lemma TriedAll(problem: Problem, rows: seq<Row>, end: nat, row: Row)
    requires problem.Valid() && 0 < end < |rows|
    requires forall e :: 0 <= e < end ==> RowDone(problem, rows, e)
    requires Tried(problem, rows, end, |problem.lengths|, row)
    ensures RowDone(problem, rows[end := row], end)
  {
    var rows' := rows[end := row];
    forall pieces | Covers(problem, pieces, end)
      ensures row.best.Some? && row.best.value <= CoverCost(problem, pieces, end)
    {
      LastPiece(problem, rows, end, row, pieces);
    }
    if row.best.Some? {
      var p := row.previous.value;
      assert RowDone(problem, rows, p.start);
      var before :| Covers(problem, before, p.start);
      Extend(problem, before, p.start, p);
      assert rows'[p.start] == rows[p.start];
    }
  }

  /** Any segmentation of [0, end) costs at least the tried row. */
  lemma LastPiece(problem: Problem, rows: seq<Row>, end: nat, row: Row, pieces: seq<Piece>)
    requires problem.Valid() && 0 < end < |rows|
    requires forall e :: 0 <= e < end ==> RowDone(problem, rows, e)
    requires Tried(problem, rows, end, |problem.lengths|, row)
    requires Covers(problem, pieces, end)
    ensures row.best.Some? && row.best.value <= CoverCost(problem, pieces, end)
  {
    var last, before := pieces[|pieces| - 1], pieces[..|pieces| - 1];
    var i :| 0 <= i < |problem.lengths| && problem.lengths[i] == last.length;
    assert TriedLength(problem, rows, end, problem.lengths[i], row);
    assert Covers(problem, before, last.start);
    assert RowDone(problem, rows, last.start);
    assert IsBest(problem, last.start, rows[last.start].best.value);
    assert pieces == before + [last];
    Extend(problem, before, last.start, last);
    assert last == Piece(end - last.length, last.length);
  }

  /** Later rows do not disturb a finished one. */
  lemma RowDoneFrame(problem: Problem, rows: seq<Row>, end: nat, e: nat, row: Row)
    requires problem.Valid() && e < end < |rows| && RowDone(problem, rows, e)
    ensures RowDone(problem, rows[end := row], e)
  {
  }

  // ---------------------------------------------------------------- the algorithm

  /** Fill the table row by row. */
  method FillTable(problem: Problem, total: nat) returns (rows: seq<Row>)
    requires problem.Valid()
    ensures |rows| == total + 1 && forall e :: 0 <= e <= total ==> RowDone(problem, rows, e)
  {
    rows := seq<Row>(total + 1, (_: nat) => Row(None, None));
    rows := rows[0 := Row(Some(0.0), None)];
    FirstRow(problem, rows);
    for end := 1 to total + 1
      invariant |rows| == total + 1
      invariant forall e :: 0 <= e < end ==> RowDone(problem, rows, e)
    {
      var row := TryLengths(problem, rows, end);
      TriedAll(problem, rows, end, row);
      ghost var before := rows;
      rows := rows[end := row];
      forall e | 0 <= e < end
        ensures RowDone(problem, rows, e)
      {
        RowDoneFrame(problem, before, end, e, row);
      }
    }
  }

  lemma FirstRow(problem: Problem, rows: seq<Row>)
    requires problem.Valid() && |rows| > 0 && rows[0] == Row(Some(0.0), None)
    ensures RowDone(problem, rows, 0)
  {
    assert Covers(problem, [], 0);
    forall pieces | Covers(problem, pieces, 0)
      ensures 0.0 <= CoverCost(problem, pieces, 0)
    {
    }
  }

  /** The inner loop: the best last piece among the allowed lengths. */
  method TryLengths(problem: Problem, rows: seq<Row>, end: nat) returns (row: Row)
    requires problem.Valid() && 0 < end < |rows|
    ensures Tried(problem, rows, end, |problem.lengths|, row)
  {
    row := Row(None, None);
    for k := 0 to |problem.lengths|
      invariant Tried(problem, rows, end, k, row)
    {
      var length := problem.lengths[k];
      if length <= end && rows[end - length].best.Some? && Piece(end - length, length) in problem.costs {
        var value := rows[end - length].best.value + problem.costs[Piece(end - length, length)];
        if row.best.None? || value < row.best.value {
          row := Row(Some(value), Some(Piece(end - length, length)));
        }
      }
    }
  }

  /** `suffix` completes any segmentation of [0, cursor) to one of [0, total) that costs
      `gap` more. */
  ghost predicate Completes(problem: Problem, suffix: seq<Piece>, cursor: nat, gap: real, total: nat) {
    forall prefix :: Covers(problem, prefix, cursor) ==>
      && Covers(problem, prefix + suffix, total)
      && CoverCost(problem, prefix + suffix, total) == CoverCost(problem, prefix, cursor) + gap
  }

  lemma CompletesStart(problem: Problem, total: nat)
    ensures Completes(problem, [], total, 0.0, total)
  {
    forall prefix | Covers(problem, prefix, total)
      ensures Covers(problem, prefix + [], total)
      ensures CoverCost(problem, prefix + [], total) == CoverCost(problem, prefix, total) + 0.0
    {
      assert prefix + [] == prefix;
    }
  }

  lemma CompletesStep(problem: Problem, suffix: seq<Piece>, item: Piece, gap: real, total: nat)
    requires problem.Allowed(item) && Completes(problem, suffix, item.start + item.length, gap, total)
    ensures Completes(problem, [item] + suffix, item.start, problem.costs[item] + gap, total)
  {
    forall prefix | Covers(problem, prefix, item.start)
      ensures Covers(problem, prefix + ([item] + suffix), total)
      ensures CoverCost(problem, prefix + ([item] + suffix), total)
           == CoverCost(problem, prefix, item.start) + (problem.costs[item] + gap)
    {
      Extend(problem, prefix, item.start, item);
      assert prefix + ([item] + suffix) == prefix + [item] + suffix;
    }
  }

  /** The walk back along the links collects a segmentation of best cost. */
  method WalkBack(problem: Problem, rows: seq<Row>, total: nat) returns (result: seq<Piece>)
    requires problem.Valid() && |rows| == total + 1 && rows[total].best.Some?
    requires forall e :: 0 <= e <= total ==> RowDone(problem, rows, e)
    ensures Covers(problem, result, total) && CoverCost(problem, result, total) == rows[total].best.value
  {
    result := [];
    var cursor := total;
    CompletesStart(problem, total);
    while cursor != 0
      invariant 0 <= cursor <= total && rows[cursor].best.Some?
      invariant Completes(problem, result, cursor, rows[total].best.value - rows[cursor].best.value, total)
      decreases cursor
    {
      assert RowDone(problem, rows, cursor);
      var item := rows[cursor].previous.value;
      CompletesStep(problem, result, item, rows[total].best.value - rows[cursor].best.value, total);
      result := [item] + result;
      cursor := item.start;
    }
    assert RowDone(problem, rows, 0);
    assert Covers(problem, [], 0);
    assert [] + result == result;
  }

  /** The whole procedure. It fails exactly when no segmentation exists, and for an empty
      range; otherwise the result is a segmentation no other one undercuts. */
  method ExactSegmentation(problem: Problem, total: nat) returns (result: Result<seq<Piece>, string>)
    requires problem.Valid()
    ensures result.Err? <==> total == 0 || !Coverable(problem, total)
    ensures result.Ok? ==>
              && Covers(problem, result.value, total)
              && IsBest(problem, total, CoverCost(problem, result.value, total))
  {
    var rows := FillTable(problem, total);
    assert RowDone(problem, rows, total);
    if rows[total].previous.None? {
      return Err("no exact segmentation");
    }
    var pieces := WalkBack(problem, rows, total);
    result := Ok(pieces);
  }

  /** The empty range has a segmentation, the empty one, that the procedure does not return. */
  lemma EmptyRangeIsCoverable(problem: Problem)
    ensures Coverable(problem, 0)
  {
    assert Covers(problem, [], 0);
  }

  /** Consecutive pieces are contiguous and fill the range from 0 to `total`. */
  lemma {:induction false} CoversIsContiguous(problem: Problem, pieces: seq<Piece>, total: nat, i: nat)
    requires Covers(problem, pieces, total) && i < |pieces|
    ensures problem.Allowed(pieces[i])
    ensures pieces[i].start == (if i == 0 then 0 else pieces[i - 1].start + pieces[i - 1].length)
    ensures i == |pieces| - 1 ==> pieces[i].start + pieces[i].length == total
    decreases |pieces|
  {
    var last, before := pieces[|pieces| - 1], pieces[..|pieces| - 1];
    if i < |pieces| - 1 {
      CoversIsContiguous(problem, before, last.start, i);
    } else if i > 0 {
      CoversIsContiguous(problem, before, last.start, i - 1);
    }
  }
}
