/** What conforming blocks are in plain numbers, a file byte by byte, and what the reader says about
    files that are cut short or damaged. */
module VbufLaws {
  import opened Bytes
  import opened Common
  import opened VbufFormat
  import opened VbufReader
  import opened VbufRoundTrip

  // ---------------------------------------------------------------- conforming blocks

  /** Semantic codes with the widths they allow: unsigned, float, signed, opaque. */
  const KINDS: set<(nat, nat)> :=
    {(0, 8), (0, 16), (0, 32), (0, 64), (1, 32), (1, 64), (2, 8), (2, 16), (2, 32), (2, 64), (3, 8)}

  lemma AcceptedKinds(semantic: nat, physical: nat, width: nat, count: nat)
    ensures Representable(semantic, physical, width, count)
       <==> (semantic, width) in KINDS && (physical == 1 || (physical == 0 && count == 1))
  {
  }

  lemma WholeBytes(count: nat, width: nat, length: nat)
    requires width == 8 || width == 16 || width == 32 || width == 64
    ensures length == PayloadLength(count, width) <==> 8 * length == count * width
  {
    hide PayloadBits;
    var k := if width == 8 then 1 else if width == 16 then 2 else if width == 32 then 4 else 8;
    EightfoldCount(count, width, k);
    EightfoldParts(PayloadBits(count, width), count * k);
  }

  lemma EightfoldCount(count: nat, width: nat, k: nat)
    requires width == 8 * k
    ensures PayloadBits(count, width) == count * width == 8 * (count * k)
  {
  }

  lemma EightfoldParts(bits: nat, n: nat)
    requires bits == 8 * n
    ensures bits / 8 == n && bits % 8 == 0
  {
  }

  /** A block conforms exactly when its kind is accepted, its numbers fit their fields, the long count
      is used where needed, and the payload has the bits that count and width say. */
  lemma ConformingExactly(baseShift: nat, b: Block)
    ensures ConformingBlock(baseShift, b)
       <==> && (b.semantic, b.width) in KINDS && (b.physical == 1 || (b.physical == 0 && b.count == 1))
            && b.key <= 65535 && baseShift + b.payloadShift <= 63
            && (b.count64 <==> b.count > 65535)
            && b.count * b.width < 0x1_0000_0000_0000_0000
            && 8 * |b.payload| == b.count * b.width
  {
    hide PayloadLength;
    AcceptedKinds(b.semantic, b.physical, b.width, b.count);
    if (b.semantic, b.width) in KINDS {
      WholeBytes(b.count, b.width, |b.payload|);
    }
  }

  lemma ReadFills(bytes: seq<Byte>, at: nat, baseShift: nat, required: Option<nat>, v: View)
    requires ReadBlock(bytes, baseShift, at, required) == Ok(v)
    ensures v.payloadStart <= v.payloadEnd
    ensures 8 * (v.payloadEnd - v.payloadStart) == 8 * v.payloadLength == v.count * v.width
  {
    hide ReadBlock, ConformingBlock, AlignUp, Power2, PayloadStart;
    ReadConforms(bytes, at, baseShift, required, v);
    ConformingExactly(baseShift, Recover(bytes, v));
    RecoveredLength(bytes, v);
    ReadBlockAt(bytes, baseShift, at, required);
  }

  lemma RecoveredLength(bytes: seq<Byte>, v: View)
    requires InBounds(bytes, v)
    ensures |Recover(bytes, v).payload| == v.payloadEnd - v.payloadStart
    ensures Recover(bytes, v).count == v.count && Recover(bytes, v).width == v.width
  {
    hide Decode, FromLe;
  }

  lemma {:induction false} WalkFills(bytes: seq<Byte>, at: nat, baseShift: nat, required: Option<nat>,
                                     vs: seq<View>, i: nat)
    requires ReadBlocks(bytes, baseShift, at, required) == Ok(vs) && i < |vs|
    ensures vs[i].payloadStart <= vs[i].payloadEnd
    ensures 8 * (vs[i].payloadEnd - vs[i].payloadStart) == vs[i].count * vs[i].width
    decreases i
  {
    hide ReadBlock, BadEnding;
    if at < |bytes| && ReadBlock(bytes, baseShift, at, required).Ok? {
      var v := ReadBlock(bytes, baseShift, at, required).value;
      ReadFills(bytes, at, baseShift, required, v);
      ReadBlockAt(bytes, baseShift, at, required);
      ReadBlocksStep(bytes, baseShift, at, required, v);
      if i > 0 {
        WalkFills(bytes, v.nextStart, baseShift, RequiredAfter(v), vs[1..], i - 1);
      }
    }
  }

  /** Every payload that is reported has exactly the bits of its count and width. */
  lemma PayloadsFill(bytes: seq<Byte>, p: Parsed, i: nat)
    requires Parse(bytes) == Ok(p) && i < |p.blocks|
    ensures var v := p.blocks[i];
            v.payloadStart <= v.payloadEnd && 8 * (v.payloadEnd - v.payloadStart) == v.count * v.width
  {
    hide ReadHeader, ReadBlocks;
    WalkFills(bytes, p.header.dataStart, p.header.baseShift, None, p.blocks, i);
  }

  // ---------------------------------------------------------------- one file, byte by byte

  /** An array of the three 32-bit numbers 1, 2 and 3 under key 1. */
  function BasicDoc(): Doc {
    Doc(3, 0, 24, [], [Block(0, 1, false, false, 0, 1, 32, 3, [1, 0, 0, 0, 2, 0, 0, 0, 3, 0, 0, 0])])
  }

  function BasicBytes(): seq<Byte> {
    [86, 66, 85, 70, 0, 0, 6, 0, 3, 0, 24, 0, 0, 0, 0, 0, 20, 0, 0, 0, 0, 0, 0, 0,
     16, 0, 1, 0, 32, 0, 3, 0, 1, 0, 0, 0, 2, 0, 0, 0, 3, 0, 0, 0]
  }

  lemma LeStep(n: nat, a: Byte, v: nat)
    ensures ToLe(n + 1, a + 256 * v) == [a] + ToLe(n, v)
  {
    assert (a + 256 * v) % 256 == a && (a + 256 * v) / 256 == v;
  }

  lemma LeNothing(v: nat)
    ensures ToLe(0, v) == []
  {
  }

  lemma Le2(a: Byte, b: Byte)
    ensures ToLe(2, a + 256 * b) == [a, b]
  {
    hide ToLe;
    LeStep(1, a, b);
    LeStep(0, b, 0);
    LeNothing(0);
  }

  lemma Le4(a: Byte, b: Byte, c: Byte, d: Byte)
    ensures ToLe(4, a + 256 * (b + 256 * (c + 256 * d))) == [a, b, c, d]
  {
    hide ToLe;
    LeStep(3, a, b + 256 * (c + 256 * d));
    LeStep(2, b, c + 256 * d);
    Le2(c, d);
  }

  lemma Le8(a: Byte, b: Byte, c: Byte, d: Byte, high: nat)
    ensures ToLe(8, a + 256 * (b + 256 * (c + 256 * (d + 256 * high)))) == [a, b, c, d] + ToLe(4, high)
  {
    hide ToLe;
    LeStep(7, a, b + 256 * (c + 256 * (d + 256 * high)));
    LeStep(6, b, c + 256 * (d + 256 * high));
    LeStep(5, c, d + 256 * high);
    LeStep(4, d, high);
  }

  lemma BasicAnchor(f: Fields)
    requires f == Fields(0, 1, false, false, 0, 1, 32, 3)
    ensures ToLe(8, Anchor(f)) == [16, 0, 1, 0, 32, 0, 3, 0]
  {
    hide Anchor, ToLe;
    AnchorIsSum(f);
    Le8(16, 0, 1, 0, 32 + 256 * (0 + 256 * (3 + 256 * 0)));
    Le4(32, 0, 3, 0);
  }

  lemma Eight()
    ensures Power2(3) == 8
  {
    assert Power2(1) == 2 && Power2(2) == 4;
  }

  lemma BasicBlock(b: Block)
    requires b == BasicDoc().blocks[0]
    ensures PayloadStart(24, 3, b) == 32 && BlockEnd(24, 3, b) == 44 && NextStart(24, 3, b) == 48
    ensures BlockBytes(24, 3, b) == [16, 0, 1, 0, 32, 0, 3, 0] + b.payload
  {
    hide Anchor, ToLe, Power2;
    Eight();
    BasicAnchor(FieldsOf(b));
  }

  lemma BasicStart()
    ensures DataStart(24, 3) == 24
  {
    hide Power2;
    Eight();
  }

  lemma RegionOfOne(at: nat, baseShift: nat, blocks: seq<Block>)
    requires |blocks| == 1
    ensures Region(at, baseShift, blocks) == BlockBytes(at, baseShift, blocks[0])
  {
    hide BlockBytes, Following;
    LastBlock(at, baseShift, blocks);
    var block := BlockBytes(at, baseShift, blocks[0]);
    assert block + [] == block;
  }

  lemma BasicRegion(doc: Doc)
    requires doc == BasicDoc()
    ensures DataStart(24, 3) == 24
    ensures DataRegion(doc) == [16, 0, 1, 0, 32, 0, 3, 0] + doc.blocks[0].payload
  {
    hide BlockBytes, DataStart, Region;
    BasicStart();
    BasicBlock(doc.blocks[0]);
    RegionOfOne(24, 3, doc.blocks);
  }

  lemma BasicConforms(doc: Doc)
    requires doc == BasicDoc()
    ensures Conforming(doc) && Packable(doc)
  {
    hide ConformingBlock, DataRegion, Packable, Power2, AlignUp;
    ConformingExactly(3, doc.blocks[0]);
    BasicRegion(doc);
    ConformingPacks(doc);
  }

  function BasicHeader(): Header {
    Header(3, 8, false, 24, 24, 20, 44)
  }

  function BasicView(): View {
    View(24, 32, 12, 44, 48, 1, 0, 1, false, 32, 3, 8)
  }

  /** The writer writes these 44 bytes, and the reader finds the payload in bytes 32 to 44. */
  lemma BasicFile(doc: Doc, bytes: seq<Byte>)
    requires doc == BasicDoc() && bytes == BasicBytes()
    ensures Conforming(doc) && Packable(doc) && Image(doc) == bytes
    ensures Parse(bytes) == Ok(Parsed(BasicHeader(), [BasicView()]))
  {
    hide Conforming, Packable, Image, Parse, DataRegion, BasicBytes, DataStart, HeaderOf, ViewsOf, BasicHeader,
      BasicView;
    BasicConforms(doc);
    BasicImage(doc);
    WrittenIsRead(doc);
    BasicRegion(doc);
    BasicViews(doc);
  }

  lemma BasicImage(doc: Doc)
    requires doc == BasicDoc() && Packable(doc)
    ensures Image(doc) == BasicBytes() && |BasicBytes()| == 44
  {
    hide ToLe, DataRegion, Packable, DataStart, Preamble;
    BasicRegion(doc);
    BasicPreamble();
    assert Image(doc) == Preamble(3, 20, 0, 24) + DataRegion(doc);
  }

  lemma BasicPreamble()
    ensures Preamble(3, 20, 0, 24)
         == [86, 66, 85, 70, 0, 0, 6, 0, 3, 0, 24, 0, 0, 0, 0, 0, 20, 0, 0, 0, 0, 0, 0, 0]
  {
    hide ToLe;
    Le4(0, 0, 6, 0);
    Le2(24, 0);
    Le4(0, 0, 0, 0);
    Le8(20, 0, 0, 0, 0);
  }

  lemma BasicViews(doc: Doc)
    requires doc == BasicDoc()
    ensures DataStart(24, 3) == 24 && HeaderOf(doc, 44) == BasicHeader()
    ensures ViewsOf(24, 3, doc.blocks) == [BasicView()]
  {
    hide Power2, AlignUp, PayloadStart, BlockEnd, NextStart;
    Eight();
    BasicRegion(doc);
    BasicBlock(doc.blocks[0]);
    assert ViewsOf(48, 3, doc.blocks[1..]) == [];
  }

  // ---------------------------------------------------------------- files cut short

  /** What the reader says about a block of which only the first bytes up to `end` are there. */
  function CutError(at: nat, baseShift: nat, b: Block, end: nat): Error {
    if at + HeadLength(b) <= end < PayloadStart(at, baseShift, b) then LengthMismatch else TruncatedBlock
  }

  predicate StartsBlock(bytes: seq<Byte>, at: nat, baseShift: nat, b: Block) {
    at < |bytes| < BlockEnd(at, baseShift, b) && bytes[at..] == BlockBytes(at, baseShift, b)[..|bytes| - at]
  }

  /** The parts of a cut block that are there. */
  lemma CutParts(bytes: seq<Byte>, at: nat, baseShift: nat, b: Block)
    requires StartsBlock(bytes, at, baseShift, b)
    ensures at + 8 <= |bytes| ==> bytes[at..at + 8] == ToLe(8, Anchor(FieldsOf(b)))
    ensures b.count64 && at + 16 <= |bytes| ==> bytes[at + 8..at + 16] == ToLe(8, b.count)
    ensures var head, start := at + HeadLength(b), PayloadStart(at, baseShift, b);
            start <= |bytes| ==> bytes[head..start] == Zeros(start - head)
  {
    hide ToLe, Anchor, PayloadStart;
    var whole, n := BlockBytes(at, baseShift, b), |bytes| - at;
    var head, start := HeadLength(b), PayloadStart(at, baseShift, b) - at;
    var anchor, count, zeros := ToLe(8, Anchor(FieldsOf(b))), CountField(b), Zeros(start - head);
    assert whole == anchor + (count + (zeros + b.payload));
    if n >= 8 {
      CutSlice(bytes, whole, at, 0, 8);
      assert whole[0..8] == anchor;
    }
    if n >= head {
      CutSlice(bytes, whole, at, 8, head);
      assert whole[8..head] == count;
    }
    if n >= start {
      CutSlice(bytes, whole, at, head, start);
      assert whole[head..start] == zeros;
    }
  }

  lemma CutSlice(bytes: seq<Byte>, whole: seq<Byte>, at: nat, i: nat, j: nat)
    requires at <= |bytes| && |bytes| - at <= |whole| && bytes[at..] == whole[..|bytes| - at]
    requires i <= j <= |bytes| - at
    ensures bytes[at + i..at + j] == whole[i..j]
  {
    forall k | 0 <= k < j - i ensures bytes[at + i..at + j][k] == whole[i..j][k] {
      assert bytes[at..][i + k] == whole[..|bytes| - at][i + k];
    }
  }

  lemma CutBlock(bytes: seq<Byte>, at: nat, baseShift: nat, b: Block, required: Option<nat>)
    requires ConformingBlock(baseShift, b) && KeyMatches(required, b) && StartsBlock(bytes, at, baseShift, b)
    ensures ReadBlock(bytes, baseShift, at, required) == Err(CutError(at, baseShift, b, |bytes|))
  {
    hide ToLe, FromLe, Anchor, Decode, Power256, StartsBlock, ReadPayload, ReadCount, PayloadStart, HeadLength;
    CutParts(bytes, at, baseShift, b);
    CutPlaces(bytes, at, baseShift, b);
    if at + 8 <= |bytes| {
      ReadsAnchorCore(Anchor(FieldsOf(b)), FieldsOf(b), baseShift, b);
      CutCount(bytes, at, baseShift, b);
      if at + HeadLength(b) <= |bytes| {
        CutPayload(bytes, at, baseShift, b);
      }
    }
  }

  lemma CutPlaces(bytes: seq<Byte>, at: nat, baseShift: nat, b: Block)
    requires StartsBlock(bytes, at, baseShift, b)
    ensures at < |bytes| < PayloadStart(at, baseShift, b) + |b.payload|
    ensures 8 <= HeadLength(b)
  {
    hide AlignUp, Power2;
  }

  lemma CutCount(bytes: seq<Byte>, at: nat, baseShift: nat, b: Block)
    requires ConformingBlock(baseShift, b) && at + 8 <= |bytes|
    requires b.count64 && at + 16 <= |bytes| ==> bytes[at + 8..at + 16] == ToLe(8, b.count)
    ensures ReadCount(bytes, at, FieldsOf(b))
            == if at + HeadLength(b) <= |bytes| then Ok(b.count) else Err(TruncatedBlock)
  {
    hide ToLe, FromLe, Power256, PayloadBits, PayloadLength;
    if b.count64 {
      ConformingFits(baseShift, b);
      FieldSizes();
      FromTo(8, b.count);
    }
  }

  lemma CutPayload(bytes: seq<Byte>, at: nat, baseShift: nat, b: Block)
    requires ConformingBlock(baseShift, b) && at + HeadLength(b) <= |bytes|
    requires |bytes| < PayloadStart(at, baseShift, b) + |b.payload|
    requires var head, start := at + HeadLength(b), PayloadStart(at, baseShift, b);
             start <= |bytes| ==> bytes[head..start] == Zeros(start - head)
    ensures ReadPayload(bytes, baseShift, at, FieldsOf(b), b.count)
            == Err(CutError(at, baseShift, b, |bytes|))
  {
    hide AlignUp, Power2, PayloadBits, Representable;
  }

  /** What the reader returns for blocks of which only the bytes up to `end` are there: the views of
      the whole ones if `end` is the end of a payload after which none need follow. */
  function CutResult(at: nat, baseShift: nat, blocks: seq<Block>, end: nat): Result<seq<View>, Error>
    requires |blocks| > 0 && at < end
    decreases |blocks|
  {
    var b := blocks[0];
    var payloadEnd, next := BlockEnd(at, baseShift, b), NextStart(at, baseShift, b);
    if end < payloadEnd then Err(CutError(at, baseShift, b, end))
    else if end <= next && b.continuation then Err(InvalidContinuation)
    else if end == payloadEnd then Ok([ViewOf(at, baseShift, b)])
    else if end <= next || |blocks| == 1 then Err(LengthMismatch)
    else Prefixed([ViewOf(at, baseShift, b)], CutResult(next, baseShift, blocks[1..], end))
  }

  predicate StartsRegion(bytes: seq<Byte>, at: nat, baseShift: nat, blocks: seq<Block>) {
    var whole := Region(at, baseShift, blocks);
    at < |bytes| < at + |whole| && bytes[at..] == whole[..|bytes| - at]
  }

  /** A cut inside the first block, or after it with the block whole. */
  lemma FirstOfRegion(bytes: seq<Byte>, at: nat, baseShift: nat, blocks: seq<Block>)
    requires |blocks| > 0 && StartsRegion(bytes, at, baseShift, blocks)
    ensures |bytes| < BlockEnd(at, baseShift, blocks[0]) ==> StartsBlock(bytes, at, baseShift, blocks[0])
    ensures |bytes| >= BlockEnd(at, baseShift, blocks[0]) ==>
              BlockAt(bytes, at, baseShift, blocks[0]) && |blocks| > 1
  {
    hide BlockBytes, Following, BlockEnd, NextStart;
    var whole, block := Region(at, baseShift, blocks), BlockBytes(at, baseShift, blocks[0]);
    RegionLength(at, baseShift, blocks);
    BlockLength(at, baseShift, blocks[0]);
    assert whole == block + Following(at, baseShift, blocks);
    var n := |bytes| - at;
    if n < |block| {
      assert whole[..n] == block[..n];
    } else {
      CutSlice(bytes, whole, at, 0, |block|);
      assert whole[0..|block|] == block;
    }
  }

  /** Past the first block: its padding, and the start of the others. */
  lemma RestOfRegion(bytes: seq<Byte>, at: nat, baseShift: nat, blocks: seq<Block>)
    requires |blocks| > 1 && StartsRegion(bytes, at, baseShift, blocks)
    requires NextStart(at, baseShift, blocks[0]) < |bytes|
    ensures var end, next := BlockEnd(at, baseShift, blocks[0]), NextStart(at, baseShift, blocks[0]);
            bytes[end..next] == Zeros(next - end) && StartsRegion(bytes, next, baseShift, blocks[1..])
  {
    hide BlockBytes, BlockEnd, NextStart;
    var end, next := BlockEnd(at, baseShift, blocks[0]), NextStart(at, baseShift, blocks[0]);
    var whole, block := Region(at, baseShift, blocks), BlockBytes(at, baseShift, blocks[0]);
    var rest, zeros := Region(next, baseShift, blocks[1..]), Zeros(next - end);
    RegionLength(at, baseShift, blocks);
    BlockLength(at, baseShift, blocks[0]);
    assert whole == block + zeros + rest;
    CutSlice(bytes, whole, at, end - at, next - at);
    assert whole[end - at..next - at] == zeros;
    CutSlice(bytes, whole, at, next - at, |bytes| - at);
    assert whole[next - at..|bytes| - at] == rest[..|bytes| - next];
    assert bytes[next..|bytes|] == bytes[next..];
  }

  lemma {:induction false} CutRegion(bytes: seq<Byte>, at: nat, baseShift: nat, blocks: seq<Block>,
                                     required: Option<nat>)
    requires |blocks| > 0 && ConformingBlocks(baseShift, blocks) && KeyMatches(required, blocks[0])
    requires StartsRegion(bytes, at, baseShift, blocks)
    ensures ReadBlocks(bytes, baseShift, at, required) == CutResult(at, baseShift, blocks, |bytes|)
    decreases |blocks|
  {
    hide StartsRegion, StartsBlock, BlockAt, ConformingBlock, ReadBlock, BlockEnd, NextStart, CutError,
      ReadBlocks, Chained;
    var b := blocks[0];
    assert ConformingBlock(baseShift, b);
    CutInside(bytes, at, baseShift, blocks);
    FirstOfRegion(bytes, at, baseShift, blocks);
    var end, next := BlockEnd(at, baseShift, b), NextStart(at, baseShift, b);
    if |bytes| < end {
      CutBlock(bytes, at, baseShift, b, required);
      ReadBlocksFails(bytes, baseShift, at, required);
    } else {
      BlockReadsBack(bytes, at, baseShift, b, required);
      var v := ViewOf(at, baseShift, b);
      ViewPlaces(at, baseShift, b);
      ReadBlocksStep(bytes, baseShift, at, required, v);
      if next < |bytes| {
        RestOfRegion(bytes, at, baseShift, blocks);
        TailConforms(baseShift, blocks);
        CutRegion(bytes, next, baseShift, blocks[1..], RequiredAfter(v));
      }
    }
  }

  lemma CutInside(bytes: seq<Byte>, at: nat, baseShift: nat, blocks: seq<Block>)
    requires StartsRegion(bytes, at, baseShift, blocks)
    ensures at < |bytes|
  {
  }

  lemma ViewPlaces(at: nat, baseShift: nat, b: Block)
    ensures var v := ViewOf(at, baseShift, b);
            && v.payloadEnd == BlockEnd(at, baseShift, b) <= v.nextStart == NextStart(at, baseShift, b)
            && v.continuation == b.continuation && v.key == b.key
  {
    hide AlignUp, Power2;
  }


  // ---------------------------------------------------------------- whole files cut short

  lemma CutHeader(doc: Doc, bytes: seq<Byte>, k: nat)
    requires Conforming(doc) && Packable(doc) && k < |Image(doc)| && bytes == Image(doc)[..k]
    ensures ReadHeader(bytes)
            == if k < DataStart(doc.headerSize, doc.baseShift) then Err(TooShort)
               else if doc.flags == 0 then Err(LengthMismatch)
               else Ok(HeaderOf(doc, k))
  {
    hide *;
    var start := DataStart(doc.headerSize, doc.baseShift);
    HeadInImage(doc);
    HeaderSizes(doc);
    if k < 24 {
      ShortHeader(bytes);
    } else {
      CutPreamble(doc, bytes, k);
      if k >= start {
        CutHead(doc, bytes, k);
        HeaderReadsBack(bytes, doc);
      } else {
        if doc.headerSize <= k {
          CutExtension(doc, bytes, k);
        }
        CutEarly(doc, bytes);
      }
    }
  }

  lemma HeaderSizes(doc: Doc)
    requires Conforming(doc)
    ensures 24 <= doc.headerSize <= DataStart(doc.headerSize, doc.baseShift) && doc.headerSize % 8 == 0
    ensures 3 <= doc.baseShift <= 8 && doc.flags <= 1 && doc.headerSize < 0x1_0000
    ensures DeclaredSize(doc) < WORD64 && |doc.extension| == doc.headerSize - 24
    ensures doc.flags == 1 ==> DeclaredSize(doc) == 0
    ensures doc.flags == 0 ==> DeclaredSize(doc) == |DataRegion(doc)|
    ensures DataStart(doc.headerSize, doc.baseShift) + |DataRegion(doc)| < SLICE_LIMIT
    ensures OptionalExtensions(doc.extension)
  {
    hide OptionalExtensions, ConformingBlocks, DataRegion, Power2, AlignUp;
  }

  lemma ShortHeader(bytes: seq<Byte>)
    requires |bytes| < 24
    ensures ReadHeader(bytes) == Err(TooShort)
  {
  }

  lemma HeadInImage(doc: Doc)
    requires Conforming(doc) && Packable(doc)
    ensures HeadParts(Image(doc), doc)
    ensures |Image(doc)| == DataStart(doc.headerSize, doc.baseShift) + |DataRegion(doc)|
    ensures Image(doc)[DataStart(doc.headerSize, doc.baseShift)..] == DataRegion(doc)
  {
    hide HeadOf, DataRegion, DataStart, ConformingBlocks, OptionalExtensions, Packable, HeadParts;
    AppendSplits(HeadOf(doc), DataRegion(doc));
    HeadIs(doc);
    HeadSplits(Image(doc), doc);
  }

  lemma HeadIs(doc: Doc)
    requires Packable(doc)
    ensures Image(doc) == HeadOf(doc) + DataRegion(doc)
    ensures |HeadOf(doc)| == DataStart(doc.headerSize, doc.baseShift)
  {
    hide DataRegion, DataStart, Preamble;
  }

  /** The first 24 bytes of a prefix that has them. */
  lemma CutPreamble(doc: Doc, bytes: seq<Byte>, k: nat)
    requires Conforming(doc) && Packable(doc) && 24 <= k <= |Image(doc)| && bytes == Image(doc)[..k]
    ensures PreambleAt(bytes, doc.baseShift, DeclaredSize(doc), doc.flags, doc.headerSize)
  {
    hide Conforming, Packable, Image, PreambleAt, Preamble, DeclaredSize;
    HeadInImage(doc);
    HeaderSizes(doc);
    PrefixOfPrefix(Image(doc), 24, k);
    PreambleOf(Image(doc), doc);
    PreambleParts(bytes, doc.baseShift, DeclaredSize(doc), doc.flags, doc.headerSize);
  }

  lemma PreambleOf(bytes: seq<Byte>, doc: Doc)
    requires doc.baseShift < 256 && doc.flags < 256 && HeadParts(bytes, doc)
    ensures 24 <= |bytes| && bytes[..24] == Preamble(doc.baseShift, DeclaredSize(doc), doc.flags, doc.headerSize)
  {
    hide Preamble, DeclaredSize;
  }

  lemma PrefixOfPrefix(s: seq<Byte>, i: nat, k: nat)
    requires i <= k <= |s|
    ensures s[..k][..i] == s[..i]
  {
  }

  lemma CutHead(doc: Doc, bytes: seq<Byte>, k: nat)
    requires Conforming(doc) && Packable(doc) && k <= |Image(doc)| && bytes == Image(doc)[..k]
    requires DataStart(doc.headerSize, doc.baseShift) <= k
    ensures HeadParts(bytes, doc)
  {
    hide Conforming, Packable, Image, Preamble, DataStart, DeclaredSize;
    HeadInImage(doc);
    HeaderSizes(doc);
    var start := DataStart(doc.headerSize, doc.baseShift);
    PrefixOfPrefix(Image(doc), 24, k);
    PrefixSlice(Image(doc), 24, doc.headerSize, k);
    PrefixSlice(Image(doc), doc.headerSize, start, k);
  }

  lemma PrefixSlice(s: seq<Byte>, i: nat, j: nat, k: nat)
    requires i <= j <= k <= |s|
    ensures s[..k][i..j] == s[i..j]
  {
  }

  /** A file that ends before its data region. */
  lemma CutEarly(doc: Doc, bytes: seq<Byte>)
    requires 3 <= doc.baseShift <= 8 && doc.flags <= 1 && doc.headerSize % 8 == 0
    requires 24 <= doc.headerSize < 0x1_0000 && DeclaredSize(doc) < WORD64
    requires doc.flags == 1 ==> DeclaredSize(doc) == 0
    requires OptionalExtensions(doc.extension) && |bytes| < DataStart(doc.headerSize, doc.baseShift)
    requires PreambleAt(bytes, doc.baseShift, DeclaredSize(doc), doc.flags, doc.headerSize)
    requires doc.headerSize <= |bytes| ==> bytes[24..doc.headerSize] == doc.extension
    ensures ReadHeader(bytes) == Err(TooShort)
  {
    hide DataStart, DeclaredSize, OptionalExtensions, BadExtension, FromLe, ToLe;
    PreambleReads(bytes, doc.baseShift, DeclaredSize(doc), doc.flags, doc.headerSize);
    if doc.headerSize <= |bytes| {
      ExtensionsAgree(bytes, 24, doc.headerSize);
    }
  }

  lemma CutExtension(doc: Doc, bytes: seq<Byte>, k: nat)
    requires Conforming(doc) && Packable(doc) && k <= |Image(doc)| && bytes == Image(doc)[..k]
    requires doc.headerSize <= k
    ensures bytes[24..doc.headerSize] == doc.extension
  {
    hide Conforming, Packable, Image, HeadParts;
    HeadInImage(doc);
    HeaderSizes(doc);
    ExtensionPart(Image(doc), doc);
    PrefixSlice(Image(doc), 24, doc.headerSize, k);
  }

  /** What the reader says about the first `k` bytes of a conforming file, for every `k` below its
      length: too short up to the data region; the wrong length if one is declared; otherwise nothing
      wrong with an empty data region, or what the cut does to the blocks. */
  lemma CutFile(doc: Doc, k: nat)
    requires Conforming(doc) && Packable(doc) && k < |Image(doc)|
    ensures DataStart(doc.headerSize, doc.baseShift) < k ==> |doc.blocks| > 0
    ensures var start := DataStart(doc.headerSize, doc.baseShift);
            Parse(Image(doc)[..k])
            == if k < start then Err(TooShort)
               else if doc.flags == 0 then Err(LengthMismatch)
               else if k == start then Ok(Parsed(HeaderOf(doc, k), []))
               else match CutResult(start, doc.baseShift, doc.blocks, k)
                 case Ok(views) => Ok(Parsed(HeaderOf(doc, k), views))
                 case Err(e) => Err(e)
  {
    hide Conforming, Packable, Image, ReadHeader, ReadBlocks, CutResult, DataStart, Region, HeadParts;
    var bytes, start := Image(doc)[..k], DataStart(doc.headerSize, doc.baseShift);
    CutHeader(doc, bytes, k);
    if k == start {
      ReadNothing(bytes, doc.baseShift, start, None);
    } else if k > start {
      HeadInImage(doc);
      ItsBlocksConform(doc);
      CutBlocks(Image(doc), k, start, doc.baseShift, doc.blocks);
    }
  }

  lemma CutBlocks(whole: seq<Byte>, k: nat, start: nat, baseShift: nat, blocks: seq<Block>)
    requires start < k < |whole| && whole[start..] == Region(start, baseShift, blocks)
    requires ConformingBlocks(baseShift, blocks)
    ensures |blocks| > 0
    ensures ReadBlocks(whole[..k], baseShift, start, None) == CutResult(start, baseShift, blocks, k)
  {
    hide ReadBlocks, CutResult, Region, ConformingBlocks;
    if |blocks| == 0 {
      EmptyRegion(start, baseShift, blocks);
    }
    SuffixOfPrefix(whole, start, k);
    CutRegion(whole[..k], start, baseShift, blocks, None);
  }

  lemma ItsBlocksConform(doc: Doc)
    requires Conforming(doc)
    ensures ConformingBlocks(doc.baseShift, doc.blocks)
  {
  }

  lemma SuffixOfPrefix(s: seq<Byte>, i: nat, k: nat)
    requires i <= k <= |s|
    ensures s[..k][i..] == s[i..][..k - i]
  {
  }

  // ---------------------------------------------------------------- damaged blocks

  /** The anchor at `at` says `f`. */
  predicate AnchorSays(bytes: seq<Byte>, at: nat, f: Fields) {
    at + 8 <= |bytes| && FieldsFit(f) && bytes[at..at + 8] == ToLe(8, Anchor(f))
  }

  lemma SaidIsRead(bytes: seq<Byte>, at: nat, f: Fields)
    requires AnchorSays(bytes, at, f)
    ensures Decode(FromLe(bytes[at..at + 8])) == f && FromLe(bytes[at..at + 8]) == Anchor(f) == AnchorValue(f)
  {
    hide ToLe, FromLe, Anchor, Decode, Power256;
    FieldSizes();
    AnchorRoundTrip(f);
    AnchorIsSum(f);
    FromTo(8, Anchor(f));
  }

  /** Eight zero bytes are never a block. */
  lemma ZeroAnchor(bytes: seq<Byte>, at: nat, baseShift: nat, required: Option<nat>)
    requires at + 8 <= |bytes| && bytes[at..at + 8] == Zeros(8)
    ensures ReadBlock(bytes, baseShift, at, required) == Err(InvalidAnchor)
    ensures ReadBlocks(bytes, baseShift, at, required) == Err(InvalidAnchor)
  {
    hide Decode, ReadCount, ReadPayload;
    ZeroWord(8);
  }

  lemma {:induction false} ZeroWord(n: nat)
    ensures FromLe(Zeros(n)) == 0
  {
    if n > 0 {
      ZeroWord(n - 1);
      assert Zeros(n)[1..] == Zeros(n - 1);
    }
  }

  /** An anchor of a conforming block with one field changed, or with the wrong form of count: the
      error the reader gives, whatever follows. */
  lemma DamagedAnchor(bytes: seq<Byte>, at: nat, baseShift: nat, b: Block, required: Option<nat>, f: Fields)
    requires ConformingBlock(baseShift, b) && AnchorSays(bytes, at, f)
    requires b.count64 ==> at + 16 <= |bytes| && FromLe(bytes[at + 8..at + 16]) == b.count
    ensures var g, r := FieldsOf(b), ReadBlock(bytes, baseShift, at, required);
            && (f == g && required.Some? && required.value != b.key ==> r == Err(InvalidContinuation))
            && (KeyMatches(required, b) ==>
                  && (f == g.(semantic := f.semantic) && (f.semantic, b.width) !in KINDS ==>
                        r == Err(InvalidRepresentation))
                  && (f == g.(width := f.width) && (b.semantic, f.width) !in KINDS ==>
                        r == Err(InvalidRepresentation))
                  && (f == g.(physical := f.physical) && f.physical > 1 ==> r == Err(InvalidRepresentation))
                  && (f == g.(physical := 0) && b.count != 1 ==> r == Err(InvalidRepresentation))
                  && (f == g.(payloadShift := f.payloadShift) && baseShift + f.payloadShift > 63 ==>
                        r == Err(Misaligned))
                  && (f == g.(inlineCount := f.inlineCount) && b.count64 && f.inlineCount != 0 ==>
                        r == Err(NonCanonicalCount)))
  {
    hide ToLe, FromLe, Anchor, Decode, Power2, AlignUp, PayloadBits, PayloadLength, NonZero, Representable;
    SaidIsRead(bytes, at, f);
    ConformingFits(baseShift, b);
    AcceptedKinds(b.semantic, b.physical, b.width, b.count);
    AcceptedKinds(f.semantic, f.physical, f.width, b.count);
  }

  // ---------------------------------------------------------------- damaged headers

  /** One byte of the fixed header of a conforming file changed: the field it lies in decides. */
  lemma DamagedHeader(doc: Doc, bytes: seq<Byte>, i: nat, x: Byte)
    requires Conforming(doc) && HeadParts(bytes, doc) && i < 16 && x != bytes[i]
    ensures var r := ReadHeader(bytes[i := x]);
            && (i < 4 ==> r == Err(BadMagic))
            && (4 <= i < 8 ==> r == Err(UnsupportedVersion))
            && (i == 8 && !(3 <= x <= 8) ==> r == Err(InvalidBaseShift))
            && (i == 9 && x > 1 ==> r == Err(InvalidFlags))
            && (i == 10 && x % 8 != 0 ==> r == Err(InvalidHeaderSize))
            && (12 <= i < 16 ==> r == Err(InvalidReserved))
  {
    hide ToLe, FromLe, BadExtension, OptionalExtensions, ConformingBlocks, DataStart, DataRegion, DeclaredSize;
    var size := DeclaredSize(doc);
    HeaderSizes(doc);
    PreambleParts(bytes, doc.baseShift, size, doc.flags, doc.headerSize);
    PreambleReads(bytes, doc.baseShift, size, doc.flags, doc.headerSize);
    ChangedFields(bytes, i, x);
  }

  /** A changed byte changes the number its field reads as, and no other field. */
  lemma ChangedFields(bytes: seq<Byte>, i: nat, x: Byte)
    requires |bytes| >= 24 && i < 16 && x != bytes[i]
    ensures var d := bytes[i := x];
            && (i < 4 ==> d[0..4] != bytes[0..4]) && (i >= 4 ==> d[0..4] == bytes[0..4])
            && (4 <= i < 8 ==> FromLe(d[4..8]) != FromLe(bytes[4..8])) && (i >= 8 ==> d[4..8] == bytes[4..8])
            && (i == 10 ==> FromLe(d[10..12]) % 8 == x % 8) && (i >= 12 ==> d[10..12] == bytes[10..12])
            && (12 <= i ==> FromLe(d[12..16]) != FromLe(bytes[12..16]))
            && d[16..24] == bytes[16..24] && |d| == |bytes|
  {
    hide FromLe;
    var d := bytes[i := x];
    if i < 4 {
      assert d[0..4][i] != bytes[0..4][i];
    } else if i < 8 {
      assert d[4..8][i - 4] != bytes[4..8][i - 4];
      SameNumber(d[4..8], bytes[4..8]);
    } else if i == 10 {
      LowBits(d[10..12]);
    } else if i >= 12 {
      assert d[12..16][i - 12] != bytes[12..16][i - 12];
      SameNumber(d[12..16], bytes[12..16]);
    }
  }

  lemma SameNumber(a: seq<Byte>, b: seq<Byte>)
    requires |a| == |b|
    ensures FromLe(a) == FromLe(b) ==> a == b
  {
    hide *;
    ToFrom(a);
    ToFrom(b);
  }

  lemma LowBits(s: seq<Byte>)
    requires |s| == 2
    ensures FromLe(s) % 8 == s[0] % 8
  {
    assert FromLe(s[1..]) == s[1] + 256 * FromLe(s[1..][1..]);
    var high := FromLe(s[1..]);
    assert s[0] + 256 * high == s[0] + 8 * (32 * high);
  }

  // ---------------------------------------------------------------- which error comes first

  /** The tests of the header in order: the first that fails gives the error. */
  lemma HeaderErrorsInOrder(bytes: seq<Byte>)
    ensures var r, n := ReadHeader(bytes), |bytes|;
            && (n < 24 ==> r == Err(TooShort))
            && (n >= 24 ==>
                  var size, headerSize := FromLe(bytes[16..24]), FromLe(bytes[10..12]);
                  var magic := bytes[..4] == [86, 66, 85, 70];
                  var version := magic && bytes[4..8] == [0, 0, 6, 0];
                  var shift := version && 3 <= bytes[8] <= 8;
                  var flags := shift && (bytes[9] == 0 || bytes[9] == 1);
                  var sized := flags && headerSize >= 24 && headerSize % 8 == 0;
                  var whole := sized && headerSize <= n;
                  var reserved := whole && bytes[12..16] == [0, 0, 0, 0];
                  var declared := reserved && (bytes[9] == 1 ==> size == 0);
                  && (!magic ==> r == Err(BadMagic))
                  && (magic && !version ==> r == Err(UnsupportedVersion))
                  && (version && !shift ==> r == Err(InvalidBaseShift))
                  && (shift && !flags ==> r == Err(InvalidFlags))
                  && (flags && !sized ==> r == Err(InvalidHeaderSize))
                  && (sized && !whole ==> r == Err(TooShort))
                  && (whole && !reserved ==> r == Err(InvalidReserved))
                  && (reserved && !declared ==> r == Err(LengthMismatch))
                  && (declared && BadExtension(bytes, 24, headerSize).Some? ==>
                        r == Err(BadExtension(bytes, 24, headerSize).value)))
  {
    hide FromLe, ToLe, BadExtension, DataStart, Step;
    if |bytes| >= 24 {
      assert bytes[0..4] == bytes[..4];
      Le4(0, 0, 6, 0);
      Le4(0, 0, 0, 0);
      NumberIs(bytes[4..8], 0x0006_0000);
      NumberIs(bytes[12..16], 0);
    }
  }

  lemma NumberIs(s: seq<Byte>, v: nat)
    requires |s| == 4 && v < 0x1_0000_0000
    ensures FromLe(s) == v <==> s == ToLe(4, v)
  {
    hide *;
    FieldSizes();
    ToFrom(s);
    FromTo(4, v);
  }

  /** After a header whose records are well formed: room for the data region, clean padding before it,
      a length that does not overflow, and the length of the file. */
  lemma RegionErrorsInOrder(bytes: seq<Byte>, headerSize: nat, start: nat, size: nat)
    requires BadPreamble(bytes).None? && headerSize == FromLe(bytes[10..12]) && size == FromLe(bytes[16..24])
    requires start == DataStart(headerSize, bytes[8])
    ensures var r, definite := ReadHeader(bytes), bytes[9] == 0;
            && (start > |bytes| ==> r == Err(TooShort))
            && (start <= |bytes| ==>
                  var clean := forall i :: headerSize <= i < start ==> bytes[i] == 0;
                  && (!clean ==> r == Err(NonZeroPadding))
                  && (clean && definite && start + size >= 0x1_0000_0000_0000_0000 ==> r == Err(ArithmeticOverflow))
                  && (clean && definite && start + size < 0x1_0000_0000_0000_0000 && start + size != |bytes| ==>
                        r == Err(LengthMismatch))
                  && (clean && (definite ==> start + size == |bytes| < 0x1_0000_0000_0000_0000) ==> r.Ok?))
  {
    hide FromLe, BadPreamble, DataStart, Step;
    if start <= |bytes| {
      CleanIsZeros(bytes, headerSize, start);
    }
  }

  lemma CleanIsZeros(bytes: seq<Byte>, i: nat, j: nat)
    requires i <= j <= |bytes|
    ensures (forall k :: i <= k < j ==> bytes[k] == 0) <==> bytes[i..j] == Zeros(j - i)
  {
    if bytes[i..j] == Zeros(j - i) {
      forall k | i <= k < j ensures bytes[k] == 0 {
        assert bytes[k] == bytes[i..j][k - i];
      }
    }
  }

  /** The tests of one block in order, for the fields its anchor says. */
  lemma BlockErrorsInOrder(bytes: seq<Byte>, at: nat, baseShift: nat, required: Option<nat>, f: Fields)
    requires AnchorSays(bytes, at, f)
    ensures var r, n := ReadBlock(bytes, baseShift, at, required), |bytes|;
            var count := if !f.count64 then f.inlineCount
                         else if at + 16 <= n then FromLe(bytes[at + 8..at + 16]) else 0;
            var head := at + if f.count64 then 16 else 8;
            var there := AnchorValue(f) != 0;
            var chained := there && (required.Some? ==> required.value == f.key);
            var counted := chained && (f.count64 ==> at + 16 <= n);
            var canonical := counted && (f.count64 ==> f.inlineCount == 0 && count > 65535);
            var kind := canonical && (f.semantic, f.width) in KINDS
                        && (f.physical == 1 || (f.physical == 0 && count == 1));
            var shift := kind && baseShift + f.payloadShift <= 63;
            && (!there ==> r == Err(InvalidAnchor))
            && (there && !chained ==> r == Err(InvalidContinuation))
            && (chained && !counted ==> r == Err(TruncatedBlock))
            && (counted && !canonical ==> r == Err(NonCanonicalCount))
            && (canonical && !kind ==> r == Err(InvalidRepresentation))
            && (kind && !shift ==> r == Err(Misaligned))
            && (shift ==> r == ReadPayload(bytes, baseShift, at, f, count))
  {
    hide ToLe, FromLe, Anchor, Decode, Power2, AlignUp, PayloadBits, PayloadLength, NonZero, Representable,
      AnchorSays;
    SaidIsRead(bytes, at, f);
    SaysFits(bytes, at, f);
    if f.count64 && at + 16 <= |bytes| {
      AcceptedKinds(f.semantic, f.physical, f.width, FromLe(bytes[at + 8..at + 16]));
    } else {
      AcceptedKinds(f.semantic, f.physical, f.width, f.inlineCount);
    }
  }

  lemma SaysFits(bytes: seq<Byte>, at: nat, f: Fields)
    requires AnchorSays(bytes, at, f)
    ensures at + 8 <= |bytes| && FieldsFit(f)
  {
  }

  /** The tests of the payload of an accepted kind: padding inside the file, clean, bits that fit 64
      bits, and the payload inside the file. */
  lemma PayloadErrorsInOrder(bytes: seq<Byte>, at: nat, baseShift: nat, f: Fields, count: nat)
    requires (f.semantic, f.width) in KINDS && (f.physical == 1 || (f.physical == 0 && count == 1))
    requires baseShift + f.payloadShift <= 63
    ensures var r, n := ReadPayload(bytes, baseShift, at, f, count), |bytes|;
            var head := at + if f.count64 then 16 else 8;
            var start := AlignUp(head, Power2(baseShift + f.payloadShift));
            var inside := start <= n;
            var clean := inside && forall i :: head <= i < start ==> bytes[i] == 0;
            var small := clean && count * f.width < 0x1_0000_0000_0000_0000;
            && (!inside ==> r == Err(LengthMismatch))
            && (inside && !clean ==> r == Err(NonZeroPadding))
            && (clean && !small ==> r == Err(ArithmeticOverflow))
            && (small && 8 * (n - start) < count * f.width ==> r == Err(TruncatedBlock))
            && (small && 8 * (n - start) >= count * f.width ==>
                  r.Ok? && r.value.payloadStart == start && 8 * r.value.payloadLength == count * f.width)
  {
    hide Power2, AlignUp, Representable, PayloadLength;
    AcceptedKinds(f.semantic, f.physical, f.width, count);
    WholeBytes(count, f.width, PayloadLength(count, f.width));
    var head := at + if f.count64 then 16 else 8;
    var start := AlignUp(head, Power2(baseShift + f.payloadShift));
    if start <= |bytes| {
      CleanIsZeros(bytes, head, start);
    }
  }

  /** What follows a block: nothing if it ends the file and is not continued; otherwise clean padding
      and room for the next one. */
  lemma EndingErrorsInOrder(bytes: seq<Byte>, v: View)
    requires v.payloadEnd <= v.nextStart && v.payloadEnd <= |bytes|
    ensures var e, last := BadEnding(bytes, v), v.nextStart >= |bytes|;
            && (v.continuation && last ==> e == Some(InvalidContinuation))
            && (!v.continuation && v.payloadEnd == |bytes| ==> e == None)
            && (!v.continuation && last && v.payloadEnd < |bytes| ==> e == Some(LengthMismatch))
            && (!last ==>
                  e == if forall i :: v.payloadEnd <= i < v.nextStart ==> bytes[i] == 0 then None
                       else Some(NonZeroPadding))
  {
    if v.nextStart <= |bytes| {
      CleanIsZeros(bytes, v.payloadEnd, v.nextStart);
    }
  }

  /** Of the extension records the first that is not optional and well formed gives the error: a
      malformed one is invalid, a well-formed one with flag 1 is required and unknown. */
  lemma {:induction false} RecordErrors(bytes: seq<Byte>, from: nat, at: nat, headerSize: nat)
    requires from <= at && at + 8 <= headerSize <= |bytes| && from % 8 == 0 && headerSize % 8 == 0
    requires OptionalExtensions(bytes[from..at])
    ensures var flags, size := FromLe(bytes[at + 2..at + 4]), FromLe(bytes[at + 4..at + 8]);
            var framed := size >= 8 && size % 8 == 0 && at + size <= headerSize;
            && (flags > 1 || !framed ==> BadExtension(bytes, from, headerSize) == Some(InvalidExtension))
            && (flags == 1 && framed ==> BadExtension(bytes, from, headerSize) == Some(UnknownRequiredExtension))
    decreases at - from
  {
    hide FromLe, BadExtension, OptionalExtensions;
    if from == at {
      ExtensionFails(bytes, at, headerSize);
    } else {
      var records := bytes[from..at];
      ShortRecords(records);
      FirstRecordIsOptional(records);
      SliceWithin(bytes, from, at, 2, 4);
      SliceWithin(bytes, from, at, 4, 8);
      var size := FromLe(bytes[from + 4..from + 8]);
      SliceOfSlice(bytes, from, at, size);
      SumOfEights(from, size);
      ExtensionStep(bytes, from, headerSize);
      RecordErrors(bytes, from + size, at, headerSize);
    }
  }

  lemma ShortRecords(records: seq<Byte>)
    requires OptionalExtensions(records) && |records| > 0
    ensures |records| >= 8
  {
  }
}
