/** The planner's loops over one candidate, the Pareto filter over all of them, and the selection. */
module LayoutSelection {
  import opened Bytes
  import opened Common
  import opened LayoutPlanner

  datatype Plan = Plan(baseShift: nat, baseStep: nat, rows: seq<Row>, finalSize: nat,
                       dataStart: nat, payloadBytes: nat, headerBytes: nat, paddingBytes: int,
                       slots: nat, nanoBytes: nat, setBits: nat, runs: nat, covered: nat)

  // ---------------------------------------------------------------- planning one candidate

  /** The rows whose block does not start where the previous payload ends. */
  function RunCount(rows: seq<Row>, n: nat): nat
    requires n <= |rows|
  {
    if n == 0 then 0
    else
      RunCount(rows, n - 1)
      + if n == 1 || rows[n - 1].blockStart != rows[n - 2].payloadEnd then 1 else 0
  }

  function Extent(rows: seq<Row>, n: nat): int
    requires n <= |rows|
  {
    if n == 0 then 0 else Extent(rows, n - 1) + rows[n - 1].payloadEnd - rows[n - 1].blockStart
  }

  lemma {:induction false} ExtentIsBytes(rows: seq<Row>, n: nat)
    requires n <= |rows|
    requires forall i :: 0 <= i < |rows| ==>
      rows[i].payloadEnd - rows[i].blockStart
      == rows[i].headerBytes + rows[i].innerPadding + rows[i].payload
    ensures Extent(rows, n) == BlockBytes(rows[..n])
    decreases n
  {
    if n > 0 {
      ExtentIsBytes(rows, n - 1);
      BlockBytesAppend(rows[..n - 1], rows[n - 1]);
      assert rows[..n] == rows[..n - 1] + [rows[n - 1]];
    }
  }

  lemma {:induction false} BlockBytesAppend(rows: seq<Row>, row: Row)
    ensures BlockBytes(rows + [row])
            == BlockBytes(rows) + row.headerBytes + row.innerPadding + row.payload
  {
    if rows == [] {
      assert [] + [row] == [row] && [row][1..] == [];
    } else {
      BlockBytesAppend(rows[1..], row);
      assert (rows + [row])[1..] == rows[1..] + [row];
    }
  }

  lemma RowsStep(payloads: seq<nat>, cursor: nat, step: nat)
    requires step > 0 && payloads != []
    ensures var row := RowAt(payloads[0], cursor, step);
            && Rows(payloads, cursor, step) == [row] + Rows(payloads[1..], row.payloadEnd, step)
            && FinalSize(payloads, cursor, step) == FinalSize(payloads[1..], row.payloadEnd, step)
    ensures Total(payloads) == payloads[0] + Total(payloads[1..])
    ensures Headers(payloads) == HeaderBytes(payloads[0]) + Headers(payloads[1..])
  {
    hide AlignUp, HeaderBytes;
  }

  /** The first loop: places the blocks one after the other. */
  method PlaceRows(payloads: seq<nat>, start: nat, step: nat)
      returns (rows: seq<Row>, cursor: nat, payload: nat, headers: nat)
    requires step > 0
    ensures rows == Rows(payloads, start, step) && cursor == FinalSize(payloads, start, step)
    ensures payload == Total(payloads) && headers == Headers(payloads)
  {
    hide Rows, FinalSize, Total, Headers, AlignUp;
    rows, cursor, payload, headers := [], start, 0, 0;
    assert payloads[0..] == payloads;
    var i := 0;
    while i < |payloads|
      invariant 0 <= i <= |payloads|
      invariant rows + Rows(payloads[i..], cursor, step) == Rows(payloads, start, step)
      invariant FinalSize(payloads[i..], cursor, step) == FinalSize(payloads, start, step)
      invariant payload + Total(payloads[i..]) == Total(payloads)
      invariant headers + Headers(payloads[i..]) == Headers(payloads)
    {
      RowsStep(payloads[i..], cursor, step);
      assert payloads[i..][1..] == payloads[i + 1..];
      var blockStart := AlignUp(cursor, step);
      var blockPadding := blockStart - cursor;
      var header := HeaderBytes(payloads[i]);
      var payloadStart := AlignUp(blockStart + header, step);
      var innerPadding := payloadStart - (blockStart + header);
      var end := payloadStart + payloads[i];
      var row := Row(payloads[i], blockStart, payloadStart, end, blockPadding, header, innerPadding);
      assert rows + ([row] + Rows(payloads[i + 1..], end, step))
             == rows + [row] + Rows(payloads[i + 1..], end, step);
      rows := rows + [row];
      cursor := end;
      payload := payload + payloads[i];
      headers := headers + header;
      i := i + 1;
    }
    NoRows(payloads[i..], cursor, step);
  }

  lemma NoRows(payloads: seq<nat>, cursor: nat, step: nat)
    requires step > 0 && payloads == []
    ensures Rows(payloads, cursor, step) == [] && FinalSize(payloads, cursor, step) == cursor
    ensures Total(payloads) == 0 && Headers(payloads) == 0
  {
  }

  /** The second loop: joins touching blocks into runs and adds up what the runs cover. */
  method CoalesceRuns(rows: seq<Row>) returns (runs: nat, covered: int)
    ensures runs == RunCount(rows, |rows|) && covered == Extent(rows, |rows|)
  {
    runs, covered := 0, 0;
    var runStart: Option<int> := None;
    var previousEnd := 0;
    var i := 0;
    while i < |rows|
      invariant 0 <= i <= |rows| && (runStart.Some? <==> i > 0)
      invariant i > 0 ==> previousEnd == rows[i - 1].payloadEnd
      invariant runs == RunCount(rows, i)
      invariant covered + (if runStart.Some? then previousEnd - runStart.value else 0)
                == Extent(rows, i)
    {
      if runStart.None? || rows[i].blockStart != previousEnd {
        if runStart.Some? {
          covered := covered + previousEnd - runStart.value;
        }
        runs := runs + 1;
        runStart := Some(rows[i].blockStart);
      }
      previousEnd := rows[i].payloadEnd;
      i := i + 1;
    }
    if runStart.Some? {
      covered := covered + previousEnd - runStart.value;
    }
  }

  /** Just enough slots for the data region. */
  lemma SlotsCover(size: nat, step: nat)
    requires step > 0
    ensures (Slots(size, step) - 1) * step < size <= Slots(size, step) * step
  {
    var n := Slots(size, step);
    var rest := (size + step - 1) % step;
    assert size + step - 1 == n * step + rest;
    assert (n - 1) * step == n * step - step;
  }

  /** The rows that start a run: the first, and every other one with padding before it. */
  function RunStarts(rows: seq<Row>, n: nat): set<nat>
    requires n <= |rows|
  {
    set i | 0 <= i < n && (i == 0 || rows[i].blockPadding > 0)
  }

  lemma {:induction false} RunsArePaddings(payloads: seq<nat>, start: nat, step: nat, n: nat)
    requires step > 0 && n <= |payloads|
    ensures RunCount(Rows(payloads, start, step), n) == |RunStarts(Rows(payloads, start, step), n)|
    decreases n
  {
    hide Rows;
    var rows := Rows(payloads, start, step);
    if n > 0 {
      RunsArePaddings(payloads, start, step, n - 1);
      if n > 1 {
        PaddingBefore(payloads, start, step, n - 1);
      }
      var starts := n == 1 || rows[n - 1].blockPadding > 0;
      assert RunStarts(rows, n) == RunStarts(rows, n - 1) + if starts then {n - 1} else {};
    } else {
      assert RunStarts(rows, 0) == {};
    }
  }

  lemma {:induction false} PaddingBefore(payloads: seq<nat>, start: nat, step: nat, i: nat)
    requires step > 0 && 0 < i < |payloads|
    ensures var rows := Rows(payloads, start, step);
            rows[i].blockPadding == rows[i].blockStart - rows[i - 1].payloadEnd
    decreases i
  {
    hide AlignUp, HeaderBytes;
    var row := RowAt(payloads[0], start, step);
    if i > 1 {
      PaddingBefore(payloads[1..], row.payloadEnd, step, i - 1);
    } else {
      assert payloads[1..] != [];
    }
  }

  method PlanCandidate(payloads: seq<nat>, baseShift: nat) returns (plan: Plan)
    ensures plan.baseShift == baseShift && plan.baseStep == Power2(baseShift)
    ensures plan.dataStart == DataStart(plan.baseStep)
    ensures plan.rows == Rows(payloads, plan.dataStart, plan.baseStep)
    ensures plan.finalSize == SizeFor(payloads, baseShift) >= plan.dataStart
    ensures plan.payloadBytes == Total(payloads) && plan.headerBytes == Headers(payloads)
    ensures plan.paddingBytes == (plan.dataStart - 24) + Paddings(plan.rows)
    ensures plan.covered == BlockBytes(plan.rows) && plan.runs == RunCount(plan.rows, |plan.rows|)
    ensures plan.slots == Slots(plan.finalSize - plan.dataStart, plan.baseStep)
    ensures (plan.slots - 1) * plan.baseStep < plan.finalSize - plan.dataStart <= plan.slots * plan.baseStep
    ensures 8 * plan.nanoBytes - 8 < plan.slots <= 8 * plan.nanoBytes
    ensures plan.nanoBytes == (plan.slots + 7) / 8 && plan.setBits == |payloads| <= plan.slots
  {
    hide Rows, FinalSize, Total, Headers, Paddings, BlockBytes, RunCount, AlignUp, Extent, Slots;
    var step := Power2(baseShift);
    var dataStart := AlignUp(24, step);
    var rows, finalSize, payload, headers := PlaceRows(payloads, dataStart, step);
    PaddingAccounts(payloads, step);
    var padding := finalSize - (24 + payload + headers);
    var runs, covered := CoalesceRuns(rows);
    RowsPlaced(payloads, dataStart, step);
    forall i | 0 <= i < |rows|
      ensures rows[i].payloadEnd - rows[i].blockStart
              == rows[i].headerBytes + rows[i].innerPadding + rows[i].payload
    {
      assert WellPlaced(rows[i], dataStart, step);
    }
    ExtentIsBytes(rows, |rows|);
    assert rows[..|rows|] == rows;
    SlotsAreDistinct(payloads, step);
    var slots := Slots(finalSize - dataStart, step);
    SlotsCover(finalSize - dataStart, step);
    plan := Plan(baseShift, step, rows, finalSize, dataStart, payload, headers, padding, slots,
                 (slots + 7) / 8, |rows|, runs, covered);
  }

  // ---------------------------------------------------------------- selection

  /** What the filter and the selection look at. */
  datatype Candidate = Candidate(baseShift: nat, baseStep: nat, finalSize: nat, paddingBytes: int,
                                 nanoBytes: nat, layerSpans: nat, amplification: real)

  predicate Dominates(b: Candidate, a: Candidate) {
    && b.finalSize <= a.finalSize && b.paddingBytes <= a.paddingBytes && b.nanoBytes <= a.nanoBytes
    && b.layerSpans <= a.layerSpans && b.amplification <= a.amplification
    && (b.finalSize < a.finalSize || b.paddingBytes < a.paddingBytes || b.nanoBytes < a.nanoBytes
        || b.layerSpans < a.layerSpans || b.amplification < a.amplification)
  }

  /** The five measures in the order of the code's list. */
  function Measure(c: Candidate, key: nat): real
    requires key < 5
  {
    [c.finalSize as real, c.paddingBytes as real, c.nanoBytes as real, c.layerSpans as real,
     c.amplification][key]
  }

  /** No larger in any of the five measures, and smaller in at least one. */
  lemma DominatesExactly(b: Candidate, a: Candidate)
    ensures Dominates(b, a)
       <==> && (forall key: nat :: key < 5 ==> Measure(b, key) <= Measure(a, key))
            && (exists key: nat :: key < 5 && Measure(b, key) < Measure(a, key))
  {
    MeasuresAre(a);
    MeasuresAre(b);
    hide Measure;
    forall key: nat | key < 5 && Dominates(b, a) ensures Measure(b, key) <= Measure(a, key) {
      if key == 0 {} else if key == 1 {} else if key == 2 {} else if key == 3 {} else {}
    }
    if key: nat :| key < 5 && Measure(b, key) < Measure(a, key) {
      assert key == 0 || key == 1 || key == 2 || key == 3 || key == 4;
    }
  }

  lemma MeasuresAre(c: Candidate)
    ensures Measure(c, 0) == c.finalSize as real && Measure(c, 1) == c.paddingBytes as real
    ensures Measure(c, 2) == c.nanoBytes as real && Measure(c, 3) == c.layerSpans as real
    ensures Measure(c, 4) == c.amplification
  {
  }

  predicate Dominated(candidates: seq<Candidate>, a: Candidate) {
    exists j :: 0 <= j < |candidates| && Dominates(candidates[j], a)
  }

  function Survivors(candidates: seq<Candidate>, n: nat): seq<nat>
    requires n <= |candidates|
  {
    if n == 0 then []
    else
      Survivors(candidates, n - 1)
      + if Dominated(candidates, candidates[n - 1]) then [] else [candidates[n - 1].baseShift]
  }

  /** The base shifts of the candidates that no other one dominates. */
  method Pareto(candidates: seq<Candidate>) returns (result: seq<nat>)
    ensures result == Survivors(candidates, |candidates|)
  {
    hide Dominates;
    result := [];
    var i := 0;
    while i < |candidates|
      invariant 0 <= i <= |candidates| && result == Survivors(candidates, i)
    {
      var dominated := false;
      var j := 0;
      while j < |candidates|
        invariant 0 <= j <= |candidates|
        invariant !dominated
        invariant forall k :: 0 <= k < j ==> !Dominates(candidates[k], candidates[i])
      {
        if i == j {
          NotItself(candidates[i]);
        } else if Dominates(candidates[j], candidates[i]) {
          dominated := true;
          break;
        }
        j := j + 1;
      }
      if !dominated {
        result := result + [candidates[i].baseShift];
      }
      i := i + 1;
    }
  }

  lemma NotItself(a: Candidate)
    ensures !Dominates(a, a)
  {
  }

  lemma {:induction false} SurvivorsAre(candidates: seq<Candidate>, n: nat, i: nat)
    requires n <= |candidates| && i < |candidates|
    requires forall j, k :: 0 <= j < k < |candidates| ==>
      candidates[j].baseShift != candidates[k].baseShift
    ensures candidates[i].baseShift in Survivors(candidates, n)
            <==> i < n && !Dominated(candidates, candidates[i])
    decreases n
  {
    hide Dominated;
    if n > 0 {
      SurvivorsAre(candidates, n - 1, i);
    }
  }

  /** Lexicographic order of the five measures. */
  predicate Before(a: Candidate, b: Candidate) {
    if a.finalSize != b.finalSize then a.finalSize < b.finalSize
    else if a.paddingBytes != b.paddingBytes then a.paddingBytes < b.paddingBytes
    else if a.nanoBytes != b.nanoBytes then a.nanoBytes < b.nanoBytes
    else if a.layerSpans != b.layerSpans then a.layerSpans < b.layerSpans
    else a.amplification <= b.amplification
  }

  function First(candidates: seq<Candidate>): (i: nat)
    requires |candidates| > 0
    ensures i < |candidates|
    ensures forall j :: 0 <= j < |candidates| ==> Before(candidates[i], candidates[j])
  {
    if |candidates| == 1 then 0
    else
      var last := |candidates| - 1;
      var i := First(candidates[..last]);
      assert forall j :: 0 <= j < last ==> Before(candidates[i], candidates[..last][j]);
      if Before(candidates[i], candidates[last]) then i else last
  }

  /** The filter always keeps a candidate with the smallest final size. */
  lemma FirstSurvives(candidates: seq<Candidate>)
    requires |candidates| > 0
    ensures !Dominated(candidates, candidates[First(candidates)])
    ensures forall j :: 0 <= j < |candidates| ==>
              candidates[First(candidates)].finalSize <= candidates[j].finalSize
  {
    hide First;
    var first := First(candidates);
    forall j | 0 <= j < |candidates|
      ensures !Dominates(candidates[j], candidates[first])
              && candidates[first].finalSize <= candidates[j].finalSize
    {
      assert Before(candidates[first], candidates[j]);
    }
  }

  /** Final size, then padding, then step. */
  predicate Better(a: Candidate, b: Candidate) {
    if a.finalSize != b.finalSize then a.finalSize < b.finalSize
    else if a.paddingBytes != b.paddingBytes then a.paddingBytes < b.paddingBytes
    else a.baseStep < b.baseStep
  }

  predicate Distinct(candidates: seq<Candidate>) {
    forall j, k :: 0 <= j < k < |candidates| ==>
      candidates[j].baseShift != candidates[k].baseShift
  }

  /** The best surviving candidate. Filtering first never costs a byte: its final size is the
      smallest of all candidates, dominated or not. */
  method Select(candidates: seq<Candidate>) returns (selected: Candidate)
    requires |candidates| > 0 && Distinct(candidates)
    ensures selected in candidates && !Dominated(candidates, selected)
    ensures forall i :: 0 <= i < |candidates| && !Dominated(candidates, candidates[i]) ==>
              var c := candidates[i];
              || selected.finalSize < c.finalSize
              || (selected.finalSize == c.finalSize
                  && (|| selected.paddingBytes < c.paddingBytes
                      || (selected.paddingBytes == c.paddingBytes && selected.baseStep <= c.baseStep)))
    ensures forall i :: 0 <= i < |candidates| ==> selected.finalSize <= candidates[i].finalSize
  {
    hide Dominated, Survivors, First;
    var kept := Pareto(candidates);
    var best: Option<Candidate> := None;
    var i := 0;
    while i < |candidates|
      invariant 0 <= i <= |candidates|
      invariant best.None? ==> forall k :: 0 <= k < i ==> Dominated(candidates, candidates[k])
      invariant best.Some? ==> best.value in candidates && !Dominated(candidates, best.value)
      invariant best.Some? ==> forall k :: 0 <= k < i && !Dominated(candidates, candidates[k]) ==>
                  !Better(candidates[k], best.value)
    {
      SurvivorsAre(candidates, |candidates|, i);
      if candidates[i].baseShift in kept && (best.None? || Better(candidates[i], best.value)) {
        best := Some(candidates[i]);
      }
      i := i + 1;
    }
    FirstSurvives(candidates);
    assert candidates[First(candidates)] in candidates;
    selected := best.value;
  }

  /** The plans for base shifts 3 to 8. The layer span counts and amplifications are whatever the
      entries' layers make them: base shift 3 is selected for every list of payloads. */
  method ChooseLayout(payloads: seq<nat>, layerSpans: seq<nat>, amplification: seq<real>)
      returns (selected: Candidate)
    requires |layerSpans| == |amplification| == 6
    ensures selected.baseShift == 3 && selected.finalSize == SizeFor(payloads, 3)
    ensures forall shift :: 3 < shift <= 8 ==> selected.finalSize + 8 <= SizeFor(payloads, shift)
  {
    hide SizeFor, Dominated, Better, Rows, Power2, Paddings, BlockBytes, RunCount;
    var candidates: seq<Candidate> := [];
    var shift := 3;
    while shift <= 8
      invariant 3 <= shift <= 9 && |candidates| == shift - 3
      invariant forall k :: 0 <= k < |candidates| ==>
        candidates[k].baseShift == k + 3
        && candidates[k].finalSize == SizeFor(payloads, candidates[k].baseShift)
    {
      var plan := PlanCandidate(payloads, shift);
      candidates := candidates + [Candidate(shift, plan.baseStep, plan.finalSize, plan.paddingBytes,
                                            plan.nanoBytes, layerSpans[shift - 3],
                                            amplification[shift - 3])];
      shift := shift + 1;
    }
    selected := Select(candidates);
    assert candidates[0].finalSize == SizeFor(payloads, 3);
    forall high | 3 < high <= 8 ensures SizeFor(payloads, 3) + 8 <= SizeFor(payloads, high) {
      ThreeIsSmallest(payloads, high);
    }
  }
}
