/** The planner against the writer and the reader: a plan says where the blocks of a file lie that is
    written with its base shift, and how long that file is. */
module PlanFile {
  import opened Bytes
  import opened Common
  import opened VbufFormat
  import opened VbufReader
  import opened VbufRoundTrip
  import Plan = LayoutPlanner

  /** A file of arrays of 8-bit values with these payload lengths and no extension. Counts above
      65535 take the long form. */
  predicate Carries(doc: Doc, payloads: seq<nat>) {
    && doc.headerSize == 24 && doc.extension == [] && |doc.blocks| == |payloads|
    && forall i :: 0 <= i < |payloads| ==> CarriesBlock(doc.blocks[i], payloads[i])
  }

  predicate CarriesBlock(b: Block, payload: nat) {
    && b.width == 8 && b.physical == 1 && b.payloadShift == 0
    && b.count == |b.payload| == payload && (b.count64 <==> payload > 65535)
  }

  // ---------------------------------------------------------------- one row, one block

  lemma AlignedStays(v: nat, a: nat)
    requires a > 0
    ensures AlignUp(AlignUp(v, a), a) == AlignUp(v, a)
  {
    hide AlignUp;
    AlignMultiple(v, a, 1);
    Plan.AlignLeast(AlignUp(v, a), a, AlignUp(v, a));
  }

  lemma RowIsBlock(payload: nat, cursor: nat, baseShift: nat, b: Block)
    requires CarriesBlock(b, payload)
    ensures var row := Plan.RowAt(payload, cursor, Step(baseShift));
            var at := AlignUp(cursor, Step(baseShift));
            && row.payload == payload && row.blockStart == at
            && row.payloadStart == PayloadStart(at, baseShift, b)
            && row.payloadEnd == BlockEnd(at, baseShift, b)
            && row.headerBytes == HeadLength(b)
            && AlignUp(row.payloadEnd, Step(baseShift)) == NextStart(at, baseShift, b)
  {
    hide AlignUp, Power2;
  }

  // ---------------------------------------------------------------- all rows, all blocks

  lemma {:induction false} RowsAreViews(payloads: seq<nat>, cursor: nat, baseShift: nat, blocks: seq<Block>)
    requires |blocks| == |payloads| && forall i :: 0 <= i < |payloads| ==> CarriesBlock(blocks[i], payloads[i])
    ensures SamePlaces(Plan.Rows(payloads, cursor, Step(baseShift)),
                       ViewsOf(AlignUp(cursor, Step(baseShift)), baseShift, blocks))
    decreases |payloads|
  {
    hide AlignUp, Step, CarriesBlock, SamePlace, ViewOf, NextStart;
    if payloads != [] {
      var step, at := Step(baseShift), AlignUp(cursor, Step(baseShift));
      var row := Plan.RowAt(payloads[0], cursor, step);
      assert CarriesBlock(blocks[0], payloads[0]);
      RowIsBlock(payloads[0], cursor, baseShift, blocks[0]);
      PlaceOfFirst(row, at, baseShift, blocks[0], payloads[0]);
      forall i | 0 <= i < |payloads| - 1 ensures CarriesBlock(blocks[1..][i], payloads[1..][i]) {
        assert CarriesBlock(blocks[i + 1], payloads[i + 1]);
      }
      RowsAreViews(payloads[1..], row.payloadEnd, baseShift, blocks[1..]);
      var rows, views := Plan.Rows(payloads, cursor, step), ViewsOf(at, baseShift, blocks);
      var rest := Plan.Rows(payloads[1..], row.payloadEnd, step);
      var others := ViewsOf(NextStart(at, baseShift, blocks[0]), baseShift, blocks[1..]);
      assert rows == [row] + rest && views == [ViewOf(at, baseShift, blocks[0])] + others;
      forall i | 0 <= i < |payloads| ensures SamePlace(rows[i], views[i]) {
        if i > 0 {
          var j := i - 1;
          assert SamePlace(rest[j], others[j]);
        }
      }
    }
  }

  predicate SamePlace(row: Plan.Row, v: View) {
    && row.blockStart == v.blockStart && row.payloadStart == v.payloadStart
    && row.payloadEnd == v.payloadEnd && row.payload == v.payloadLength
  }

  predicate SamePlaces(rows: seq<Plan.Row>, views: seq<View>) {
    |rows| == |views| && forall i :: 0 <= i < |rows| ==> SamePlace(rows[i], views[i])
  }

  lemma PlaceOfFirst(row: Plan.Row, at: nat, baseShift: nat, b: Block, payload: nat)
    requires CarriesBlock(b, payload) && row.payload == payload && row.blockStart == at
    requires row.payloadStart == PayloadStart(at, baseShift, b) && row.payloadEnd == BlockEnd(at, baseShift, b)
    ensures SamePlace(row, ViewOf(at, baseShift, b))
  {
    hide PayloadStart, BlockEnd, Power2;
  }

  lemma {:induction false} SizeIsLength(payloads: seq<nat>, cursor: nat, baseShift: nat, blocks: seq<Block>)
    requires |blocks| == |payloads| && forall i :: 0 <= i < |payloads| ==> CarriesBlock(blocks[i], payloads[i])
    requires |payloads| > 0
    ensures var at := AlignUp(cursor, Step(baseShift));
            Plan.FinalSize(payloads, cursor, Step(baseShift)) == at + |Region(at, baseShift, blocks)|
    decreases |payloads|
  {
    hide AlignUp, Step, CarriesBlock, Region, BlockEnd, NextStart;
    var step, at := Step(baseShift), AlignUp(cursor, Step(baseShift));
    var row := Plan.RowAt(payloads[0], cursor, step);
    assert CarriesBlock(blocks[0], payloads[0]);
    RowIsBlock(payloads[0], cursor, baseShift, blocks[0]);
    RegionLength(at, baseShift, blocks);
    if |payloads| > 1 {
      forall i | 0 <= i < |payloads| - 1 ensures CarriesBlock(blocks[1..][i], payloads[1..][i]) {
        assert CarriesBlock(blocks[i + 1], payloads[i + 1]);
      }
      SizeIsLength(payloads[1..], row.payloadEnd, baseShift, blocks[1..]);
    } else {
      assert payloads[1..] == [];
    }
  }

  // ---------------------------------------------------------------- the file

  lemma ImageLength(doc: Doc)
    requires Packable(doc)
    ensures |Image(doc)| == DataStart(doc.headerSize, doc.baseShift) + |DataRegion(doc)|
  {
    hide Preamble, DataStart, DataRegion;
  }

  /** The planned size is the length of the file the writer writes. */
  lemma PlannedSize(payloads: seq<nat>, doc: Doc)
    requires Carries(doc, payloads) && Packable(doc)
    ensures |Image(doc)| == Plan.SizeFor(payloads, doc.baseShift)
  {
    hide AlignUp, CarriesBlock, Region, Packable, Image, Plan.FinalSize, Power2;
    ImageLength(doc);
    var start := DataStart(24, doc.baseShift);
    AlignedStays(24, Step(doc.baseShift));
    if |payloads| > 0 {
      SizeIsLength(payloads, start, doc.baseShift, doc.blocks);
    } else {
      EmptyRegion(start, doc.baseShift, doc.blocks);
      NothingPlanned(payloads, start, Step(doc.baseShift));
    }
  }

  lemma NothingPlanned(payloads: seq<nat>, cursor: nat, step: nat)
    requires step > 0 && |payloads| == 0
    ensures Plan.FinalSize(payloads, cursor, step) == cursor
  {
  }

  /** The reader of a written file finds every block and payload where the plan puts it. */
  lemma PlannedPlaces(payloads: seq<nat>, doc: Doc)
    requires Carries(doc, payloads) && Conforming(doc)
    ensures Packable(doc) && Parse(Image(doc)).Ok?
    ensures SamePlaces(Plan.Rows(payloads, Plan.DataStart(Power2(doc.baseShift)), Power2(doc.baseShift)),
                       Parse(Image(doc)).value.blocks)
  {
    hide AlignUp, CarriesBlock, Conforming, Packable, Image, Parse, ViewsOf, Plan.Rows, Power2, SamePlaces;
    WrittenIsRead(doc);
    AlignedStays(24, Step(doc.baseShift));
    RowsAreViews(payloads, DataStart(24, doc.baseShift), doc.baseShift, doc.blocks);
  }
}
