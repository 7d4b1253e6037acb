/** The vBuf v0.6 writer: 64-bit block anchors, the global header, and the canonical layout of
    blocks with zero padding up to every payload and every following block. */
module VbufFormat {
  import opened Bytes
  import opened Common

  datatype Block = Block(semantic: nat, physical: nat, continuation: bool, count64: bool,
                         payloadShift: nat, key: nat, width: nat, count: nat, payload: seq<Byte>)

  datatype Doc = Doc(baseShift: nat, flags: nat, headerSize: nat, extension: seq<Byte>,
                     blocks: seq<Block>)

  /** What a reader takes out of an anchor. */
  datatype Fields = Fields(semantic: nat, physical: nat, continuation: bool, count64: bool,
                           payloadShift: nat, key: nat, width: nat, inlineCount: nat)

  const WORD64: nat := 0x1_0000_0000_0000_0000

  function Bit(b: bool): nat {
    if b then 1 else 0
  }

  // ---------------------------------------------------------------- anchors

  function FieldsOf(b: Block): Fields {
    Fields(b.semantic, b.physical, b.continuation, b.count64, b.payloadShift, b.key, b.width,
           if b.count64 then 0 else b.count)
  }

  /** The anchor: every field shifted to its place and or-ed together. */
  function Anchor(f: Fields): nat {
    var a0 := BitOr(f.semantic, Shl(f.physical, 4));
    var a1 := BitOr(a0, Shl(Bit(f.continuation), 8));
    var a2 := BitOr(a1, Shl(Bit(f.count64), 9));
    var a3 := BitOr(a2, Shl(f.payloadShift, 10));
    var a4 := BitOr(a3, Shl(f.key, 16));
    var a5 := BitOr(a4, Shl(f.width, 32));
    BitOr(a5, Shl(f.inlineCount, 48))
  }

  /** Masks and right shifts of a 64-bit word, as the reader applies them. */
  function Decode(anchor: nat): Fields {
    Fields(anchor % 16, anchor / 16 % 16, anchor / 256 % 2 == 1, anchor / 512 % 2 == 1,
           anchor / 1024 % 64, anchor / 0x1_0000 % 0x1_0000, anchor / 0x1_0000_0000 % 0x1_0000,
           anchor / 0x1_0000_0000_0000 % 0x1_0000)
  }

  predicate FieldsFit(f: Fields) {
    f.semantic < 16 && f.physical < 16 && f.payloadShift < 64 && f.key < 0x1_0000
    && f.width < 0x1_0000 && f.inlineCount < 0x1_0000
  }

  function AnchorValue(f: Fields): nat {
    f.semantic + 16 * f.physical + 256 * Bit(f.continuation) + 512 * Bit(f.count64)
    + 1024 * f.payloadShift + 0x1_0000 * f.key + 0x1_0000_0000 * f.width
    + 0x1_0000_0000_0000 * f.inlineCount
  }

  lemma FieldPowers()
    ensures Power2(4) == 16 && Power2(8) == 256 && Power2(9) == 512 && Power2(10) == 1024
    ensures Power2(16) == 0x1_0000 && Power2(32) == 0x1_0000_0000
    ensures Power2(48) == 0x1_0000_0000_0000
  {
    PowerSum(8, 8);
    PowerSum(16, 16);
    PowerSum(32, 16);
  }

  lemma {:induction false} PowerSum(i: nat, j: nat)
    ensures Power2(i + j) == Power2(i) * Power2(j)
    decreases j
  {
    if j > 0 {
      PowerSum(i, j - 1);
      Twice(Power2(i), Power2(j - 1));
    }
  }

  lemma OrField(low: nat, field: nat, k: nat)
    requires low < Power2(k)
    ensures BitOr(low, Shl(field, k)) == low + field * Power2(k)
  {
    BitOrDisjoint(low, field, k);
    ShlIsTimes(field, k);
  }

  /** For fields inside their widths no bits collide, and the anchor is a 64-bit word. */
  lemma AnchorIsSum(f: Fields)
    requires FieldsFit(f)
    ensures Anchor(f) == AnchorValue(f) < WORD64
  {
    hide BitOr, Shl, Power2;
    FieldPowers();
    var a0 := f.semantic + 16 * f.physical;
    var a1 := a0 + 256 * Bit(f.continuation);
    var a2 := a1 + 512 * Bit(f.count64);
    var a3 := a2 + 1024 * f.payloadShift;
    var a4 := a3 + 0x1_0000 * f.key;
    var a5 := a4 + 0x1_0000_0000 * f.width;
    OrField(f.semantic, f.physical, 4);
    OrField(a0, Bit(f.continuation), 8);
    OrField(a1, Bit(f.count64), 9);
    OrField(a2, f.payloadShift, 10);
    OrField(a3, f.key, 16);
    OrField(a4, f.width, 32);
    OrField(a5, f.inlineCount, 48);
  }

  lemma DecodeValue(f: Fields)
    requires FieldsFit(f)
    ensures Decode(AnchorValue(f)) == f
  {
    var a := AnchorValue(f);
    var h6 := f.inlineCount;
    var h5 := f.width + 0x1_0000 * h6;
    var h4 := f.key + 0x1_0000 * h5;
    var h3 := f.payloadShift + 64 * h4;
    var h2 := Bit(f.count64) + 2 * h3;
    var h1 := Bit(f.continuation) + 2 * h2;
    var h0 := f.physical + 16 * h1;
    var l1 := f.semantic + 16 * f.physical;
    var l2 := l1 + 256 * Bit(f.continuation);
    var l3 := l2 + 512 * Bit(f.count64);
    var l4 := l3 + 1024 * f.payloadShift;
    var l5 := l4 + 0x1_0000 * f.key;
    var l6 := l5 + 0x1_0000_0000 * f.width;
    DigitAt(a, 0, f.semantic, h0, 1, 16);
    DigitAt(a, f.semantic, f.physical, h1, 16, 16);
    DigitAt(a, l1, Bit(f.continuation), h2, 256, 2);
    DigitAt(a, l2, Bit(f.count64), h3, 512, 2);
    DigitAt(a, l3, f.payloadShift, h4, 1024, 64);
    DigitAt(a, l4, f.key, h5, 0x1_0000, 0x1_0000);
    DigitAt(a, l5, f.width, h6, 0x1_0000_0000, 0x1_0000);
    DigitAt(a, l6, f.inlineCount, 0, 0x1_0000_0000_0000, 0x1_0000);
  }

  lemma LowDigits(a: nat)
    ensures var f := Decode(a);
            a % 0x1_0000 == f.semantic + 16 * f.physical + 256 * Bit(f.continuation)
                            + 512 * Bit(f.count64) + 1024 * f.payloadShift
  {
    NextDigit(a, 16, 16);
    NextDigit(a, 256, 2);
    NextDigit(a, 512, 2);
    NextDigit(a, 1024, 64);
  }

  lemma HighDigits(a: nat)
    requires a < WORD64
    ensures var f := Decode(a);
            a == a % 0x1_0000 + 0x1_0000 * f.key + 0x1_0000_0000 * f.width
                 + 0x1_0000_0000_0000 * f.inlineCount
  {
    assert a % 0x1_0000_0000 == a % 0x1_0000 + 0x1_0000 * (a / 0x1_0000 % 0x1_0000) by {
      NextDigit(a, 0x1_0000, 0x1_0000);
    }
    assert a % 0x1_0000_0000_0000 == a % 0x1_0000_0000 + 0x1_0000_0000 * (a / 0x1_0000_0000 % 0x1_0000) by {
      NextDigit(a, 0x1_0000_0000, 0x1_0000);
    }
    assert a == a % 0x1_0000_0000_0000 + 0x1_0000_0000_0000 * (a / 0x1_0000_0000_0000 % 0x1_0000) by {
      NextDigit(a, 0x1_0000_0000_0000, 0x1_0000);
    }
  }

  lemma ValueOfDecoded(a: nat)
    requires a < WORD64
    ensures FieldsFit(Decode(a)) && AnchorValue(Decode(a)) == a
  {
    LowDigits(a);
    HighDigits(a);
  }

  /** Decoding an anchor gives back the fields that were packed into it. */
  lemma AnchorRoundTrip(f: Fields)
    requires FieldsFit(f)
    ensures Anchor(f) < WORD64 && Decode(Anchor(f)) == f
  {
    hide *;
    AnchorIsSum(f);
    DecodeValue(f);
  }

  /** Every 64-bit word is the anchor of the fields decoded from it. */
  lemma DecodeRoundTrip(a: nat)
    requires a < WORD64
    ensures FieldsFit(Decode(a)) && Anchor(Decode(a)) == a
  {
    hide *;
    ValueOfDecoded(a);
    AnchorIsSum(Decode(a));
  }

  // ---------------------------------------------------------------- the image of a document

  function Step(baseShift: nat): (s: nat)
    ensures s >= 1
  {
    Power2(baseShift)
  }

  function CountField(b: Block): seq<Byte> {
    if b.count64 then ToLe(8, b.count) else []
  }

  function HeadLength(b: Block): nat {
    if b.count64 then 16 else 8
  }

  function PayloadStart(at: nat, baseShift: nat, b: Block): (p: nat)
    ensures p >= at + HeadLength(b)
  {
    AlignUp(at + HeadLength(b), Power2(baseShift + b.payloadShift))
  }

  /** One block written at position `at`: anchor, long count, padding, payload. */
  function BlockBytes(at: nat, baseShift: nat, b: Block): (s: seq<Byte>)
    ensures |s| == PayloadStart(at, baseShift, b) - at + |b.payload|
  {
    ToLe(8, Anchor(FieldsOf(b))) + CountField(b)
    + Zeros(PayloadStart(at, baseShift, b) - at - HeadLength(b)) + b.payload
  }

  function BlockEnd(at: nat, baseShift: nat, b: Block): (e: nat)
    ensures e >= at + HeadLength(b)
  {
    PayloadStart(at, baseShift, b) + |b.payload|
  }

  function NextStart(at: nat, baseShift: nat, b: Block): (n: nat)
    ensures n >= BlockEnd(at, baseShift, b)
  {
    AlignUp(BlockEnd(at, baseShift, b), Step(baseShift))
  }

  /** All blocks from position `at` on; the last one is not padded. */
  function Region(at: nat, baseShift: nat, blocks: seq<Block>): seq<Byte>
    decreases |blocks|
  {
    if |blocks| == 0 then []
    else BlockBytes(at, baseShift, blocks[0]) + Following(at, baseShift, blocks)
  }

  function Following(at: nat, baseShift: nat, blocks: seq<Block>): seq<Byte>
    requires |blocks| > 0
    decreases |blocks|, 0
  {
    if |blocks| == 1 then []
    else
      var next := NextStart(at, baseShift, blocks[0]);
      Zeros(next - BlockEnd(at, baseShift, blocks[0])) + Region(next, baseShift, blocks[1..])
  }

  function Preamble(baseShift: Byte, size: nat, flags: Byte, headerSize: nat): (s: seq<Byte>)
    ensures |s| == 24
  {
    [86, 66, 85, 70] + ToLe(4, 0x0006_0000) + [baseShift, flags] + ToLe(2, headerSize)
    + ToLe(4, 0) + ToLe(8, size)
  }

  function DataStart(headerSize: nat, baseShift: nat): (p: nat)
    ensures p >= headerSize
  {
    AlignUp(headerSize, Step(baseShift))
  }

  function DataRegion(doc: Doc): seq<Byte> {
    Region(DataStart(doc.headerSize, doc.baseShift), doc.baseShift, doc.blocks)
  }

  function DeclaredSize(doc: Doc): nat {
    if doc.flags % 2 == 1 then 0 else |DataRegion(doc)|
  }

  /** What the writer cannot encode it refuses: a header size other than the header's length, and
      any number too large for its field. */
  predicate Packable(doc: Doc) {
    doc.baseShift < 256 && doc.flags < 256
    && doc.headerSize == 24 + |doc.extension| < 0x1_0000
    && DeclaredSize(doc) < WORD64
    && forall i :: 0 <= i < |doc.blocks| ==> PackableBlock(doc.blocks[i])
  }

  predicate PackableBlock(b: Block) {
    Anchor(FieldsOf(b)) < WORD64 && (b.count64 ==> b.count < WORD64)
  }

  function Image(doc: Doc): seq<Byte>
    requires Packable(doc)
  {
    Preamble(doc.baseShift, DeclaredSize(doc), doc.flags, doc.headerSize) + doc.extension
    + Zeros(DataStart(doc.headerSize, doc.baseShift) - doc.headerSize) + DataRegion(doc)
  }

  // ---------------------------------------------------------------- the writer's loop

  method GlobalHeader(baseShift: nat, size: nat, flags: nat, headerSize: nat, extension: seq<Byte>)
      returns (raw: Option<seq<Byte>>)
    ensures raw.Some? <==> baseShift < 256 && flags < 256
                           && headerSize == 24 + |extension| < 0x1_0000 && size < WORD64
    ensures raw.Some? ==> raw.value == Preamble(baseShift, size, flags, headerSize) + extension
                                       + Zeros(DataStart(headerSize, baseShift) - headerSize)
  {
    hide ToLe, DataStart;
    if baseShift >= 256 || flags >= 256 || headerSize >= 0x1_0000 || size >= WORD64 {
      return None;
    }
    var bytes: seq<Byte> := [86, 66, 85, 70] + ToLe(4, 0x0006_0000);
    bytes := bytes + [baseShift, flags] + ToLe(2, headerSize);
    bytes := bytes + ToLe(4, 0) + ToLe(8, size);
    bytes := bytes + extension;
    if |bytes| != headerSize {
      return None;
    }
    bytes := bytes + Zeros(DataStart(headerSize, baseShift) - headerSize);
    return Some(bytes);
  }

  lemma RegionStep(at: nat, baseShift: nat, blocks: seq<Block>, data: seq<Byte>)
    requires |blocks| > 0
    ensures data + Region(at, baseShift, blocks)
            == data + BlockBytes(at, baseShift, blocks[0]) + Following(at, baseShift, blocks)
  {
  }

  /** One turn of the writer's loop, up to the end of the payload. */
  method AppendBlock(data: seq<Byte>, dataStart: nat, baseShift: nat, block: Block)
      returns (r: Option<seq<Byte>>)
    ensures r.Some? <==> PackableBlock(block)
    ensures r.Some? ==> r.value == data + BlockBytes(dataStart + |data|, baseShift, block)
  {
    hide Anchor, ToLe, AlignUp, Power2;
    var anchor := Anchor(FieldsOf(block));
    if anchor >= WORD64 {
      return None;
    }
    var written := ToLe(8, anchor);
    if block.count64 {
      if block.count >= WORD64 {
        return None;
      }
      written := written + ToLe(8, block.count);
    }
    var position := dataStart + |data| + |written|;
    var payloadStart := AlignUp(position, Power2(baseShift + block.payloadShift));
    written := written + Zeros(payloadStart - position);
    written := written + block.payload;
    return Some(data + written);
  }

  /** The writer appends block after block; it fails exactly on what cannot be packed, and
      otherwise returns the image. */
  method Canonical(doc: Doc) returns (r: Option<seq<Byte>>)
    ensures r.Some? <==> Packable(doc)
    ensures r.Some? ==> r.value == Image(doc)
  {
    hide Region, Following, BlockBytes, Anchor, ToLe, AlignUp, Step, PackableBlock;
    var step := Step(doc.baseShift);
    var dataStart := DataStart(doc.headerSize, doc.baseShift);
    var data: seq<Byte> := [];
    assert doc.blocks[0..] == doc.blocks;
    StartsAligned(doc.headerSize, doc.baseShift);
    var index := 0;
    while index < |doc.blocks|
      invariant 0 <= index <= |doc.blocks|
      invariant forall i :: 0 <= i < index ==> PackableBlock(doc.blocks[i])
      invariant data + Region(dataStart + |data|, doc.baseShift, doc.blocks[index..])
                == DataRegion(doc)
      invariant index < |doc.blocks| ==> (dataStart + |data|) % step == 0
    {
      ghost var rest := doc.blocks[index..];
      ghost var at := dataStart + |data|;
      RegionStep(at, doc.baseShift, rest, data);
      assert (dataStart + |data|) % step == 0;
      var appended := AppendBlock(data, dataStart, doc.baseShift, doc.blocks[index]);
      if appended.None? {
        return None;
      }
      data := appended.value;
      assert dataStart + |data| == BlockEnd(at, doc.baseShift, rest[0]);
      assert rest[1..] == doc.blocks[index + 1..];
      if index + 1 < |doc.blocks| {
        FollowingStep(at, doc.baseShift, rest, data);
        var nextStart := AlignUp(dataStart + |data|, step);
        StartsAligned(dataStart + |data|, doc.baseShift);
        data := data + Zeros(nextStart - (dataStart + |data|));
      } else {
        LastBlock(at, doc.baseShift, rest);
        EmptyRegion(dataStart + |data|, doc.baseShift, rest[1..]);
      }
      index := index + 1;
    }
    EmptyRegion(dataStart + |data|, doc.baseShift, doc.blocks[index..]);
    var size := if doc.flags % 2 == 1 then 0 else |data|;
    var header := GlobalHeader(doc.baseShift, size, doc.flags, doc.headerSize, doc.extension);
    if header.None? {
      return None;
    }
    return Some(header.value + data);
  }

  lemma EmptyRegion(at: nat, baseShift: nat, blocks: seq<Block>)
    requires |blocks| == 0
    ensures Region(at, baseShift, blocks) == []
  {
  }

  lemma LastBlock(at: nat, baseShift: nat, blocks: seq<Block>)
    requires |blocks| == 1
    ensures Following(at, baseShift, blocks) == []
  {
  }

  lemma FollowingStep(at: nat, baseShift: nat, blocks: seq<Block>, data: seq<Byte>)
    requires |blocks| > 1
    ensures var next, end := NextStart(at, baseShift, blocks[0]), BlockEnd(at, baseShift, blocks[0]);
            data + Following(at, baseShift, blocks)
            == data + Zeros(next - end) + Region(next, baseShift, blocks[1..])
  {
  }

  /** Every aligned-up position is a multiple of the step. */
  lemma StartsAligned(v: nat, baseShift: nat)
    ensures AlignUp(v, Step(baseShift)) % Step(baseShift) == 0
  {
    AlignMultiple(v, Step(baseShift), 1);
  }
}
