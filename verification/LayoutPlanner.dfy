/** The BaseShift layout planner: where every block of a file would lie for one step size, what the
    layout costs, and which candidate is selected. */
module LayoutPlanner {
  import opened Bytes
  import opened Common

  // ---------------------------------------------------------------- rows

  datatype Row = Row(payload: nat, blockStart: nat, payloadStart: nat, payloadEnd: nat,
                     blockPadding: nat, headerBytes: nat, innerPadding: nat)

  function HeaderBytes(payload: nat): (h: nat)
    ensures h == 8 || h == 16
  {
    if payload > 65535 then 16 else 8
  }

  function RowAt(payload: nat, cursor: nat, step: nat): (r: Row)
    requires step > 0
    ensures cursor <= r.blockStart < r.payloadStart <= r.payloadEnd
  {
    var blockStart := AlignUp(cursor, step);
    var header := HeaderBytes(payload);
    var payloadStart := AlignUp(blockStart + header, step);
    Row(payload, blockStart, payloadStart, payloadStart + payload, blockStart - cursor, header,
        payloadStart - (blockStart + header))
  }

  function Rows(payloads: seq<nat>, cursor: nat, step: nat): (rows: seq<Row>)
    requires step > 0
    ensures |rows| == |payloads|
    decreases |payloads|
  {
    if payloads == [] then []
    else
      var row := RowAt(payloads[0], cursor, step);
      [row] + Rows(payloads[1..], row.payloadEnd, step)
  }

  function FinalSize(payloads: seq<nat>, cursor: nat, step: nat): (size: nat)
    requires step > 0
    ensures size >= cursor
    decreases |payloads|
  {
    if payloads == [] then cursor
    else FinalSize(payloads[1..], RowAt(payloads[0], cursor, step).payloadEnd, step)
  }

  function Total(payloads: seq<nat>): nat {
    if payloads == [] then 0 else payloads[0] + Total(payloads[1..])
  }

  function Headers(payloads: seq<nat>): nat {
    if payloads == [] then 0 else HeaderBytes(payloads[0]) + Headers(payloads[1..])
  }

  function Paddings(rows: seq<Row>): nat {
    if rows == [] then 0 else rows[0].blockPadding + rows[0].innerPadding + Paddings(rows[1..])
  }

  /** Headers, payloads and the padding between them. */
  function BlockBytes(rows: seq<Row>): nat {
    if rows == [] then 0
    else rows[0].headerBytes + rows[0].innerPadding + rows[0].payload + BlockBytes(rows[1..])
  }

  // ---------------------------------------------------------------- alignment and order

  lemma MultipleQuotient(m: nat, a: nat)
    requires a > 0 && m % a == 0
    ensures m == m / a * a
  {
  }

  /** AlignUp gives the least multiple. */
  lemma AlignLeast(v: nat, a: nat, m: nat)
    requires a > 0 && m % a == 0 && v <= m
    ensures AlignUp(v, a) <= m
  {
    hide AlignUp;
    var up := AlignUp(v, a);
    AlignMultiple(v, a, 1);
    MultipleQuotient(m, a);
    MultipleQuotient(up, a);
    if up > m {
      QuotientOrder(m, up, a);
      MultiplesApart(m / a, up / a, a);
    }
  }

  lemma QuotientOrder(x: nat, y: nat, a: nat)
    requires a > 0 && x % a == 0 && y % a == 0 && x < y
    ensures x / a < y / a
  {
    MultipleQuotient(x, a);
    MultipleQuotient(y, a);
    if y / a < x / a {
      MultiplesApart(y / a, x / a, a);
    }
  }

  /** Two multiples lie at least one step apart. */
  lemma MultipleGap(x: nat, y: nat, a: nat)
    requires a > 0 && x % a == 0 && y % a == 0 && x < y
    ensures x + a <= y
  {
    QuotientOrder(x, y, a);
    MultipleQuotient(x, a);
    MultipleQuotient(y, a);
    MultiplesApart(x / a, y / a, a);
  }

  lemma RowAligned(payload: nat, cursor: nat, step: nat)
    requires step > 0
    ensures var r := RowAt(payload, cursor, step);
            && r.blockStart % step == 0 && r.payloadStart % step == 0
            && r.blockStart + step <= r.payloadStart
  {
    hide AlignUp, HeaderBytes;
    var r := RowAt(payload, cursor, step);
    AlignMultiple(cursor, step, 1);
    AlignMultiple(r.blockStart + r.headerBytes, step, 1);
    MultipleGap(r.blockStart, r.payloadStart, step);
  }

  predicate WellPlaced(row: Row, from: nat, step: nat)
    requires step > 0
  {
    && row.blockStart % step == 0 && row.payloadStart % step == 0
    && from <= row.blockStart && row.blockStart + step <= row.payloadStart
    && row.payloadEnd == row.payloadStart + row.payload
    && row.payloadStart == row.blockStart + row.headerBytes + row.innerPadding
  }

  /** Every block and payload starts on a step, the blocks come in order and do not overlap, and
      the file ends where the last one does. */
  lemma {:induction false} RowsPlaced(payloads: seq<nat>, cursor: nat, step: nat)
    requires step > 0
    ensures var rows := Rows(payloads, cursor, step);
            && (forall i :: 0 <= i < |rows| ==>
                  rows[i].payload == payloads[i] && WellPlaced(rows[i], cursor, step)
                  && rows[i].payloadEnd <= FinalSize(payloads, cursor, step))
            && (forall i, j :: 0 <= i < j < |rows| ==> rows[i].payloadEnd <= rows[j].blockStart)
    decreases |payloads|
  {
    hide AlignUp, HeaderBytes;
    if payloads != [] {
      var row := RowAt(payloads[0], cursor, step);
      RowAligned(payloads[0], cursor, step);
      RowsPlaced(payloads[1..], row.payloadEnd, step);
      var rest := Rows(payloads[1..], row.payloadEnd, step);
      forall i | 0 <= i < |rest|
        ensures WellPlaced(rest[i], cursor, step) && row.payloadEnd <= rest[i].blockStart
      {
        assert WellPlaced(rest[i], row.payloadEnd, step);
      }
    }
  }

  // ---------------------------------------------------------------- accounting

  /** Nothing is lost: the file is the header's start, the payloads, the block headers and the
      paddings of the rows. */
  lemma {:induction false} SizeAccounts(payloads: seq<nat>, cursor: nat, step: nat)
    requires step > 0
    ensures FinalSize(payloads, cursor, step)
            == cursor + Total(payloads) + Headers(payloads) + Paddings(Rows(payloads, cursor, step))
    decreases |payloads|
  {
    hide AlignUp, HeaderBytes;
    if payloads != [] {
      var row := RowAt(payloads[0], cursor, step);
      SizeAccounts(payloads[1..], row.payloadEnd, step);
      assert Rows(payloads, cursor, step)[1..] == Rows(payloads[1..], row.payloadEnd, step);
    }
  }

  function DataStart(step: nat): nat
    requires step > 0
  {
    AlignUp(24, step)
  }

  /** The reported padding is the gap before the data region plus all paddings of the rows. */
  lemma PaddingAccounts(payloads: seq<nat>, step: nat)
    requires step > 0
    ensures FinalSize(payloads, DataStart(step), step) - 24 - Total(payloads) - Headers(payloads)
            == (DataStart(step) - 24) + Paddings(Rows(payloads, DataStart(step), step))
  {
    hide AlignUp;
    SizeAccounts(payloads, DataStart(step), step);
  }

  // ---------------------------------------------------------------- slots

  function Slots(size: nat, step: nat): nat
    requires step > 0
  {
    (size + step - 1) / step
  }

  function SlotOf(row: Row, dataStart: nat, step: nat): nat
    requires step > 0 && row.blockStart >= dataStart
  {
    (row.blockStart - dataStart) / step
  }

  lemma DifferenceAligned(x: nat, y: nat, a: nat)
    requires a > 0 && x % a == 0 && y % a == 0 && x <= y
    ensures (y - x) % a == 0
  {
    MultipleQuotient(x, a);
    MultipleQuotient(y, a);
    if x < y {
      QuotientOrder(x, y, a);
    } else {
      assert y - x == 0 * a;
    }
    var p, q := x / a, y / a;
    assert y - x == (q - p) * a;
    MultipleMod(q - p, a);
  }

  lemma SlotInside(offset: nat, size: nat, step: nat)
    requires step > 0 && offset % step == 0 && offset < size
    ensures offset / step < Slots(size, step)
  {
    MultipleQuotient(offset, step);
    var q, n := offset / step, Slots(size, step);
    assert n * step + step > size + step - 1 by {
      var rest := (size + step - 1) % step;
      assert size + step - 1 == n * step + rest;
    }
    if q >= n {
      if q > n {
        MultiplesApart(n, q, step);
      }
    }
  }

  /** Every block has a slot of its own inside the data region, so the set bits of the bitmap never
      outnumber its slots. */
  lemma SlotsAreDistinct(payloads: seq<nat>, step: nat)
    requires step > 0
    ensures var start, size := DataStart(step), FinalSize(payloads, DataStart(step), step);
            var rows := Rows(payloads, start, step);
            && (forall i :: 0 <= i < |rows| ==>
                  rows[i].blockStart >= start
                  && SlotOf(rows[i], start, step) < Slots(size - start, step))
            && (forall i, j :: 0 <= i < j < |rows| ==>
                  SlotOf(rows[i], start, step) < SlotOf(rows[j], start, step))
            && |rows| <= Slots(size - start, step)
  {
    hide Rows, FinalSize, AlignUp, Slots;
    var start, size := DataStart(step), FinalSize(payloads, DataStart(step), step);
    var rows := Rows(payloads, start, step);
    RowsPlaced(payloads, start, step);
    AlignMultiple(24, step, 1);
    forall i | 0 <= i < |rows|
      ensures rows[i].blockStart >= start
              && SlotOf(rows[i], start, step) < Slots(size - start, step)
    {
      SlotFits(rows[i], payloads, start, step, i);
    }
    forall i, j | 0 <= i < j < |rows|
      ensures SlotOf(rows[i], start, step) < SlotOf(rows[j], start, step)
    {
      assert WellPlaced(rows[i], start, step);
      assert WellPlaced(rows[j], start, step);
      SlotsOrdered(rows[i], rows[j], start, step);
    }
    var slots := seq<nat>(|rows|, i requires 0 <= i < |rows| => SlotOf(rows[i], start, step));
    IncreasingFit(slots, Slots(size - start, step));
  }

  lemma SlotFits(row: Row, payloads: seq<nat>, start: nat, step: nat, i: nat)
    requires step > 0 && start % step == 0 && i < |payloads|
    requires row == Rows(payloads, start, step)[i]
    ensures row.blockStart >= start
    ensures SlotOf(row, start, step) < Slots(FinalSize(payloads, start, step) - start, step)
  {
    hide FinalSize, Rows, Slots, AlignUp;
    RowsPlaced(payloads, start, step);
    assert WellPlaced(Rows(payloads, start, step)[i], start, step);
    DifferenceAligned(start, row.blockStart, step);
    SlotInside(row.blockStart - start, FinalSize(payloads, start, step) - start, step);
  }

  lemma SlotsOrdered(a: Row, b: Row, start: nat, step: nat)
    requires step > 0 && start % step == 0
    requires WellPlaced(a, start, step) && WellPlaced(b, start, step) && a.payloadEnd <= b.blockStart
    ensures SlotOf(a, start, step) < SlotOf(b, start, step)
  {
    DifferenceAligned(start, a.blockStart, step);
    DifferenceAligned(start, b.blockStart, step);
    QuotientOrder(a.blockStart - start, b.blockStart - start, step);
  }

  lemma {:induction false} IncreasingFit(slots: seq<nat>, limit: nat)
    requires forall i, j :: 0 <= i < j < |slots| ==> slots[i] < slots[j]
    requires forall i :: 0 <= i < |slots| ==> slots[i] < limit
    ensures |slots| <= limit
    decreases |slots|
  {
    if |slots| > 0 {
      var last := |slots| - 1;
      IncreasingFit(slots[..last], slots[last]);
    }
  }

  // ---------------------------------------------------------------- larger steps

  lemma AlignMonotone(v: nat, w: nat, a: nat, k: nat)
    requires a > 0 && k > 0 && v <= w
    ensures a * k > 0 && AlignUp(v, a) <= AlignUp(w, a * k)
  {
    hide AlignUp;
    AlignMultiple(w, a, k);
    AlignLeast(v, a, AlignUp(w, a * k));
  }

  lemma {:induction false} CoarserIsLarger(payloads: seq<nat>, v: nat, w: nat, step: nat, k: nat)
    requires step > 0 && k > 0 && v <= w
    ensures step * k > 0 && FinalSize(payloads, v, step) <= FinalSize(payloads, w, step * k)
    decreases |payloads|
  {
    hide AlignUp, HeaderBytes;
    AlignMonotone(v, w, step, k);
    if payloads != [] {
      var a, b := RowAt(payloads[0], v, step), RowAt(payloads[0], w, step * k);
      AlignMonotone(a.blockStart + a.headerBytes, b.blockStart + b.headerBytes, step, k);
      CoarserIsLarger(payloads[1..], a.payloadEnd, b.payloadEnd, step, k);
    }
  }

  function SizeFor(payloads: seq<nat>, baseShift: nat): nat {
    FinalSize(payloads, DataStart(Power2(baseShift)), Power2(baseShift))
  }

  /** Raising the base shift never shrinks the file. */
  lemma {:induction false} BaseShiftMonotone(payloads: seq<nat>, low: nat, high: nat)
    requires low <= high
    ensures SizeFor(payloads, low) <= SizeFor(payloads, high)
    decreases high
  {
    hide FinalSize, AlignUp;
    if low < high {
      BaseShiftMonotone(payloads, low, high - 1);
      var step := Power2(high - 1);
      AlignMonotone(24, 24, step, 2);
      CoarserIsLarger(payloads, DataStart(step), DataStart(step * 2), step, 2);
    }
  }

  lemma AlignGap(v: nat, w: nat)
    requires v + 8 <= w
    ensures AlignUp(v, 8) + 8 <= AlignUp(w, 16)
  {
    hide AlignUp;
    AlignMultiple(w, 8, 2);
    AlignMultiple(v, 8, 1);
    var m := AlignUp(w, 16);
    MultipleQuotient(m, 8);
    AlignLeast(v, 8, m - 8);
  }

  /** A file that is eight bytes behind with step 16 never catches up with step 8. */
  lemma {:induction false} StaysBehind(payloads: seq<nat>, v: nat, w: nat)
    requires v + 8 <= w
    ensures FinalSize(payloads, v, 8) + 8 <= FinalSize(payloads, w, 16)
    decreases |payloads|
  {
    hide AlignUp, HeaderBytes;
    if payloads != [] {
      var a, b := RowAt(payloads[0], v, 8), RowAt(payloads[0], w, 16);
      AlignGap(v, w);
      AlignGap(a.blockStart + a.headerBytes, b.blockStart + b.headerBytes);
      StaysBehind(payloads[1..], a.payloadEnd, b.payloadEnd);
    }
  }

  /** Base shift 3 is strictly smallest: any larger one costs at least eight bytes more. */
  lemma ThreeIsSmallest(payloads: seq<nat>, high: nat)
    requires high > 3
    ensures SizeFor(payloads, 3) + 8 <= SizeFor(payloads, high)
  {
    hide FinalSize, SizeFor;
    assert SizeFor(payloads, 3) + 8 <= SizeFor(payloads, 4) by {
      SizesForSteps(payloads);
      StaysBehind(payloads, 24, 32);
    }
    BaseShiftMonotone(payloads, 4, high);
  }

  lemma SizesForSteps(payloads: seq<nat>)
    ensures SizeFor(payloads, 3) == FinalSize(payloads, 24, 8)
    ensures SizeFor(payloads, 4) == FinalSize(payloads, 32, 16)
  {
    hide FinalSize;
    assert Power2(2) == 4;
    assert Power2(3) == 8 && Power2(4) == 16;
    assert AlignUp(24, 8) == 24 && AlignUp(24, 16) == 32;
  }
}
