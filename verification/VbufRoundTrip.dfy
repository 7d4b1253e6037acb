/** Reader and writer of vBuf v0.6 undo each other: the reader accepts exactly the images of
    conforming documents, and from an image it recovers every block. */
module VbufRoundTrip {
  import opened Bytes
  import opened Common
  import opened VbufFormat
  import opened VbufReader

  // ---------------------------------------------------------------- conforming documents

  predicate ConformingBlock(baseShift: nat, b: Block) {
    && Representable(b.semantic, b.physical, b.width, b.count)
    && b.key < 0x1_0000
    && b.count64 == (b.count > 65535)
    && baseShift + b.payloadShift <= 63
    && PayloadBits(b.count, b.width) < WORD64
    && |b.payload| == PayloadLength(b.count, b.width)
  }

  /** A continued block is followed by a block of the same key. */
  predicate Chained(blocks: seq<Block>) {
    forall i :: 0 <= i < |blocks| && blocks[i].continuation ==>
      i + 1 < |blocks| && blocks[i + 1].key == blocks[i].key
  }

  predicate ConformingBlocks(baseShift: nat, blocks: seq<Block>) {
    (forall i :: 0 <= i < |blocks| ==> ConformingBlock(baseShift, blocks[i])) && Chained(blocks)
  }

  /** Extension records that fill the space exactly, none of them required. */
  predicate OptionalExtensions(extension: seq<Byte>)
    decreases |extension|
  {
    |extension| == 0 ||
    (|extension| >= 8 && FromLe(extension[2..4]) == 0
     && var size := FromLe(extension[4..8]);
        8 <= size <= |extension| && size % 8 == 0 && OptionalExtensions(extension[size..]))
  }

  predicate Conforming(doc: Doc) {
    && 3 <= doc.baseShift <= 8 && doc.flags <= 1
    && doc.headerSize == 24 + |doc.extension| < 0x1_0000 && doc.headerSize % 8 == 0
    && OptionalExtensions(doc.extension)
    && ConformingBlocks(doc.baseShift, doc.blocks)
    && DataStart(doc.headerSize, doc.baseShift) + |DataRegion(doc)| < SLICE_LIMIT
  }

  // ---------------------------------------------------------------- views and recovery

  function ViewOf(at: nat, baseShift: nat, b: Block): View {
    View(at, PayloadStart(at, baseShift, b), |b.payload|, BlockEnd(at, baseShift, b),
         NextStart(at, baseShift, b), b.key, b.semantic, b.physical, b.continuation, b.width,
         b.count, Power2(baseShift + b.payloadShift))
  }

  function ViewsOf(at: nat, baseShift: nat, blocks: seq<Block>): (vs: seq<View>)
    ensures |vs| == |blocks|
    decreases |blocks|
  {
    if |blocks| == 0 then []
    else
      [ViewOf(at, baseShift, blocks[0])]
      + ViewsOf(NextStart(at, baseShift, blocks[0]), baseShift, blocks[1..])
  }

  /** The header the reader reports for a document of the given physical length. */
  function HeaderOf(doc: Doc, length: nat): Header
    requires DataStart(doc.headerSize, doc.baseShift) <= length
  {
    var start := DataStart(doc.headerSize, doc.baseShift);
    Header(doc.baseShift, Step(doc.baseShift), doc.flags == 1, doc.headerSize, start,
           length - start, length)
  }

  predicate InBounds(bytes: seq<Byte>, v: View) {
    v.blockStart + 8 <= v.payloadStart <= v.payloadEnd <= |bytes|
  }

  /** A block rebuilt from its view and the bytes it lies in. */
  function Recover(bytes: seq<Byte>, v: View): Block
    requires InBounds(bytes, v)
  {
    Block(v.semantic, v.physical, v.continuation, v.count > 65535,
          Decode(FromLe(bytes[v.blockStart..v.blockStart + 8])).payloadShift, v.key, v.width,
          v.count, bytes[v.payloadStart..v.payloadEnd])
  }

  predicate AllInBounds(bytes: seq<Byte>, vs: seq<View>) {
    forall i :: 0 <= i < |vs| ==> InBounds(bytes, vs[i])
  }

  function RecoverAll(bytes: seq<Byte>, vs: seq<View>): (blocks: seq<Block>)
    requires AllInBounds(bytes, vs)
    ensures |blocks| == |vs|
  {
    if |vs| == 0 then [] else [Recover(bytes, vs[0])] + RecoverAll(bytes, vs[1..])
  }

  predicate WithinFile(bytes: seq<Byte>, p: Parsed) {
    24 <= p.header.headerSize <= |bytes| && AllInBounds(bytes, p.blocks)
  }

  function RecoverDoc(bytes: seq<Byte>, p: Parsed): Doc
    requires WithinFile(bytes, p)
  {
    Doc(p.header.baseShift, if p.header.indefinite then 1 else 0, p.header.headerSize,
        bytes[24..p.header.headerSize], RecoverAll(bytes, p.blocks))
  }

  // ---------------------------------------------------------------- one block

  /** The four parts of a block, found at their places in the file. */
  predicate PartsAt(bytes: seq<Byte>, at: nat, baseShift: nat, b: Block) {
    var start := PayloadStart(at, baseShift, b);
    && BlockEnd(at, baseShift, b) <= |bytes|
    && bytes[at..at + 8] == ToLe(8, Anchor(FieldsOf(b)))
    && bytes[at + 8..at + HeadLength(b)] == CountField(b)
    && bytes[at + HeadLength(b)..start] == Zeros(start - at - HeadLength(b))
    && bytes[start..start + |b.payload|] == b.payload
  }

  predicate BlockAt(bytes: seq<Byte>, at: nat, baseShift: nat, b: Block) {
    var end := BlockEnd(at, baseShift, b);
    end <= |bytes| && bytes[at..end] == BlockBytes(at, baseShift, b)
  }

  lemma Slices(bytes: seq<Byte>, i: nat, j: nat, k: nat)
    requires i <= j <= k <= |bytes|
    ensures bytes[i..k] == bytes[i..j] + bytes[j..k]
  {
  }

  lemma SamePieces(whole: seq<Byte>, x: seq<Byte>, y: seq<Byte>, u: seq<Byte>, v: seq<Byte>)
    requires whole == x + y && whole == u + v && |x| == |u|
    ensures x == u && y == v
  {
    assert x == whole[..|x|] && u == whole[..|x|];
    assert y == whole[|x|..] && v == whole[|x|..];
  }

  lemma PartsOfBlock(bytes: seq<Byte>, at: nat, baseShift: nat, b: Block)
    ensures BlockAt(bytes, at, baseShift, b) <==> PartsAt(bytes, at, baseShift, b)
  {
    hide ToLe, Anchor, AlignUp, Power2;
    var start, end := PayloadStart(at, baseShift, b), BlockEnd(at, baseShift, b);
    if end <= |bytes| {
      var anchor, count := ToLe(8, Anchor(FieldsOf(b))), CountField(b);
      var zeros := Zeros(start - at - HeadLength(b));
      assert BlockBytes(at, baseShift, b) == anchor + (count + (zeros + b.payload));
      FourPieces(bytes, at, at + 8, at + HeadLength(b), start, end, anchor, count, zeros, b.payload);
    }
  }

  lemma FourPieces(bytes: seq<Byte>, i: nat, j: nat, k: nat, m: nat, n: nat,
                   a: seq<Byte>, b: seq<Byte>, c: seq<Byte>, d: seq<Byte>)
    requires i <= j <= k <= m <= n <= |bytes|
    requires |a| == j - i && |b| == k - j && |c| == m - k && |d| == n - m
    ensures bytes[i..n] == a + (b + (c + d))
       <==> bytes[i..j] == a && bytes[j..k] == b && bytes[k..m] == c && bytes[m..n] == d
  {
    Slices(bytes, i, j, n);
    Slices(bytes, j, k, n);
    Slices(bytes, k, m, n);
    if bytes[i..n] == a + (b + (c + d)) {
      SamePieces(bytes[i..n], bytes[i..j], bytes[j..n], a, b + (c + d));
      SamePieces(bytes[j..n], bytes[j..k], bytes[k..n], b, c + d);
      SamePieces(bytes[k..n], bytes[k..m], bytes[m..n], c, d);
    }
  }

  lemma ConformingFits(baseShift: nat, b: Block)
    requires ConformingBlock(baseShift, b)
    ensures FieldsFit(FieldsOf(b)) && b.count < WORD64 && b.width < 0x1_0000 && b.width > 0
  {
    CountBelowBits(b.count, b.width);
  }

  lemma CountBelowBits(count: nat, width: nat)
    requires width > 0
    ensures count <= PayloadBits(count, width)
  {
  }

  predicate KeyMatches(required: Option<nat>, b: Block) {
    required.Some? ==> required.value == b.key
  }

  lemma AnchorNotZero(baseShift: nat, b: Block)
    requires ConformingBlock(baseShift, b)
    ensures Anchor(FieldsOf(b)) != 0
  {
    hide Anchor, PayloadBits, PayloadLength;
    ConformingFits(baseShift, b);
    AnchorIsSum(FieldsOf(b));
  }

  lemma ReadsAnchor(bytes: seq<Byte>, at: nat, baseShift: nat, b: Block)
    requires ConformingBlock(baseShift, b) && PartsAt(bytes, at, baseShift, b)
    ensures var anchor := FromLe(bytes[at..at + 8]);
            anchor != 0 && Decode(anchor) == FieldsOf(b)
  {
    hide *;
    hide ToLe;
    ReadsAnchorCore(Anchor(FieldsOf(b)), FieldsOf(b), baseShift, b);
    assert bytes[at..at + 8] == ToLe(8, Anchor(FieldsOf(b))) by {
      AnchorPart(bytes, at, baseShift, b);
    }
  }

  lemma AnchorPart(bytes: seq<Byte>, at: nat, baseShift: nat, b: Block)
    requires PartsAt(bytes, at, baseShift, b)
    ensures at + 8 <= |bytes| && bytes[at..at + 8] == ToLe(8, Anchor(FieldsOf(b)))
  {
    hide ToLe, Anchor;
  }

  lemma ReadsAnchorCore(anchor: nat, f: Fields, baseShift: nat, b: Block)
    requires ConformingBlock(baseShift, b) && f == FieldsOf(b) && anchor == Anchor(f)
    ensures FromLe(ToLe(8, anchor)) == anchor != 0 && Decode(anchor) == f
  {
    hide Anchor, ToLe, FromLe, Power256, Decode;
    ConformingFits(baseShift, b);
    AnchorRoundTrip(f);
    AnchorNotZero(baseShift, b);
    FieldSizes();
    FromTo(8, anchor);
  }

  lemma ReadsCount(bytes: seq<Byte>, at: nat, baseShift: nat, b: Block)
    requires ConformingBlock(baseShift, b) && PartsAt(bytes, at, baseShift, b)
    ensures ReadCount(bytes, at, FieldsOf(b)) == Ok(b.count)
  {
    hide Anchor, ToLe, FromLe, Power256, Power2, AlignUp, PayloadBits;
    if b.count64 {
      ConformingFits(baseShift, b);
      FieldSizes();
      FromTo(8, b.count);
    }
  }

  lemma ReadsPayload(bytes: seq<Byte>, at: nat, baseShift: nat, b: Block)
    requires ConformingBlock(baseShift, b) && PartsAt(bytes, at, baseShift, b)
    ensures ReadPayload(bytes, baseShift, at, FieldsOf(b), b.count)
            == Ok(ViewOf(at, baseShift, b))
  {
    hide Anchor, ToLe, FromLe, Power256, Power2, AlignUp, PayloadBits;
  }

  /** A conforming block is read back as it was written. */
  lemma BlockReadsBack(bytes: seq<Byte>, at: nat, baseShift: nat, b: Block, required: Option<nat>)
    requires ConformingBlock(baseShift, b) && BlockAt(bytes, at, baseShift, b)
    requires KeyMatches(required, b)
    ensures ReadBlock(bytes, baseShift, at, required) == Ok(ViewOf(at, baseShift, b))
    ensures var v := ViewOf(at, baseShift, b); InBounds(bytes, v) && Recover(bytes, v) == b
  {
    hide Anchor, ToLe, FromLe, Power2, AlignUp, PayloadBits, ReadPayload, Decode, ReadCount;
    PartsOfBlock(bytes, at, baseShift, b);
    ReadsAnchor(bytes, at, baseShift, b);
    ReadsCount(bytes, at, baseShift, b);
    ReadsPayload(bytes, at, baseShift, b);
  }

  lemma WroteAnchor(bytes: seq<Byte>, at: nat, f: Fields)
    requires at + 8 <= |bytes| && f == Decode(FromLe(bytes[at..at + 8]))
    ensures FieldsFit(f) && bytes[at..at + 8] == ToLe(8, Anchor(f))
  {
    hide Anchor, ToLe, FromLe, Power256, Decode;
    FieldSizes();
    ToFrom(bytes[at..at + 8]);
    DecodeRoundTrip(FromLe(bytes[at..at + 8]));
  }

  lemma ReadConforms(bytes: seq<Byte>, at: nat, baseShift: nat, required: Option<nat>, v: View)
    requires ReadBlock(bytes, baseShift, at, required) == Ok(v)
    ensures InBounds(bytes, v) && v.blockStart == at
    ensures var b := Recover(bytes, v);
            && ConformingBlock(baseShift, b) && KeyMatches(required, b)
            && v == ViewOf(at, baseShift, b)
            && FieldsOf(b) == Decode(FromLe(bytes[at..at + 8]))
  {
    hide FromLe, ToLe, Anchor, Power2, AlignUp, PayloadBits, Decode;
    WroteAnchor(bytes, at, Decode(FromLe(bytes[at..at + 8])));
  }

  lemma ReadParts(bytes: seq<Byte>, at: nat, baseShift: nat, required: Option<nat>, v: View)
    requires ReadBlock(bytes, baseShift, at, required) == Ok(v)
    ensures at + 8 <= |bytes|
    ensures var long := Decode(FromLe(bytes[at..at + 8])).count64;
            var headerEnd := at + if long then 16 else 8;
            && (long ==> at + 16 <= |bytes| && v.count == FromLe(bytes[at + 8..at + 16]))
            && headerEnd <= v.payloadStart <= |bytes|
            && bytes[headerEnd..v.payloadStart] == Zeros(v.payloadStart - headerEnd)
  {
    hide FromLe, Power2, AlignUp, PayloadBits, Decode, Representable;
  }

  /** A block that reads well is conforming, and the file holds its writing. */
  lemma BlockWasWritten(bytes: seq<Byte>, at: nat, baseShift: nat, required: Option<nat>, v: View)
    requires ReadBlock(bytes, baseShift, at, required) == Ok(v)
    ensures InBounds(bytes, v)
    ensures var b := Recover(bytes, v);
            && ConformingBlock(baseShift, b) && KeyMatches(required, b)
            && v == ViewOf(at, baseShift, b) && BlockAt(bytes, at, baseShift, b)
  {
    hide Anchor, ToLe, FromLe, Power256, Power2, AlignUp, Decode, BlockAt, ReadBlock,
      ConformingBlock;
    ReadConforms(bytes, at, baseShift, required, v);
    ReadParts(bytes, at, baseShift, required, v);
    var b := Recover(bytes, v);
    WroteAnchor(bytes, at, FieldsOf(b));
    if b.count64 {
      ToFrom(bytes[at + 8..at + 16]);
    }
    PartsOfBlock(bytes, at, baseShift, b);
  }

  // ---------------------------------------------------------------- all blocks

  lemma {:induction false} RegionLength(at: nat, baseShift: nat, blocks: seq<Block>)
    requires |blocks| > 0
    ensures |Region(at, baseShift, blocks)| >= BlockEnd(at, baseShift, blocks[0]) - at
    ensures |blocks| > 1 ==>
              (at + |Region(at, baseShift, blocks)|
               == NextStart(at, baseShift, blocks[0])
                  + |Region(NextStart(at, baseShift, blocks[0]), baseShift, blocks[1..])|)
    ensures |blocks| == 1 ==>
              at + |Region(at, baseShift, blocks)| == BlockEnd(at, baseShift, blocks[0])
  {
    hide BlockBytes, AlignUp, Power2;
    BlockLength(at, baseShift, blocks[0]);
  }

  lemma BlockLength(at: nat, baseShift: nat, b: Block)
    ensures |BlockBytes(at, baseShift, b)| == BlockEnd(at, baseShift, b) - at
  {
  }

  predicate RegionAt(bytes: seq<Byte>, at: nat, baseShift: nat, blocks: seq<Block>) {
    at <= |bytes| && bytes[at..] == Region(at, baseShift, blocks)
  }

  /** Where a region of several blocks splits: the first block, its padding, the others. */
  lemma RegionSplits(bytes: seq<Byte>, at: nat, baseShift: nat, blocks: seq<Block>)
    requires |blocks| > 1
    ensures var end, next := BlockEnd(at, baseShift, blocks[0]), NextStart(at, baseShift, blocks[0]);
            RegionAt(bytes, at, baseShift, blocks) <==>
              (&& BlockAt(bytes, at, baseShift, blocks[0]) && next <= |bytes|
               && bytes[end..next] == Zeros(next - end)
               && RegionAt(bytes, next, baseShift, blocks[1..]))
  {
    hide BlockBytes, AlignUp, Power2, Region, PayloadStart;
    var b := blocks[0];
    var end, next := BlockEnd(at, baseShift, b), NextStart(at, baseShift, b);
    var tail := Region(next, baseShift, blocks[1..]);
    RegionStep(at, baseShift, blocks, []);
    FollowingStep(at, baseShift, blocks, BlockBytes(at, baseShift, b));
    assert [] + Region(at, baseShift, blocks) == Region(at, baseShift, blocks);
    assert [] + BlockBytes(at, baseShift, b) == BlockBytes(at, baseShift, b);
    BlockLength(at, baseShift, b);
    RegionLength(at, baseShift, blocks);
    assert Region(at, baseShift, blocks)
           == BlockBytes(at, baseShift, b) + (Zeros(next - end) + tail);
    if next <= |bytes| {
      assert bytes[at..] == bytes[at..end] + bytes[end..];
      assert bytes[end..] == bytes[end..next] + bytes[next..];
      if RegionAt(bytes, at, baseShift, blocks) {
        SamePieces(bytes[at..], bytes[at..end], bytes[end..], BlockBytes(at, baseShift, b),
                   Zeros(next - end) + tail);
        SamePieces(bytes[end..], bytes[end..next], bytes[next..], Zeros(next - end), tail);
      }
    }
  }

  lemma LastRegion(bytes: seq<Byte>, at: nat, baseShift: nat, blocks: seq<Block>)
    requires |blocks| == 1
    ensures RegionAt(bytes, at, baseShift, blocks) <==>
              BlockAt(bytes, at, baseShift, blocks[0])
              && BlockEnd(at, baseShift, blocks[0]) == |bytes|
  {
    hide BlockBytes, AlignUp, Power2, PayloadStart;
    BlockLength(at, baseShift, blocks[0]);
    RegionStep(at, baseShift, blocks, []);
    LastBlock(at, baseShift, blocks);
    assert at <= |bytes| ==> bytes[at..] == bytes[at..|bytes|];
  }

  lemma TailConforms(baseShift: nat, blocks: seq<Block>)
    requires |blocks| > 0 && ConformingBlocks(baseShift, blocks)
    ensures ConformingBlock(baseShift, blocks[0]) && ConformingBlocks(baseShift, blocks[1..])
    ensures blocks[0].continuation ==> |blocks| > 1 && blocks[1].key == blocks[0].key
  {
    hide ConformingBlock;
    forall i | 0 <= i < |blocks[1..]| && blocks[1..][i].continuation
      ensures i + 1 < |blocks[1..]| && blocks[1..][i + 1].key == blocks[1..][i].key
    {
      assert blocks[1..][i] == blocks[i + 1];
      var next := i + 1;
      assert blocks[next].continuation;
    }
  }

  lemma ChainConforms(baseShift: nat, first: Block, rest: seq<Block>)
    requires ConformingBlock(baseShift, first) && ConformingBlocks(baseShift, rest)
    requires first.continuation ==> |rest| > 0 && rest[0].key == first.key
    ensures ConformingBlocks(baseShift, [first] + rest)
  {
    hide ConformingBlock;
    var blocks := [first] + rest;
    forall i | 0 <= i < |blocks| && blocks[i].continuation
      ensures i + 1 < |blocks| && blocks[i + 1].key == blocks[i].key
    {
      if i > 0 {
        assert blocks[i] == rest[i - 1] && rest[i - 1].continuation;
        var before := i - 1;
        assert rest[before + 1].key == rest[before].key;
      }
    }
  }

  predicate StartsWithKey(required: Option<nat>, blocks: seq<Block>) {
    required.Some? ==> |blocks| > 0 && required.value == blocks[0].key
  }

  /** The walk over the writing of conforming blocks returns their views. */
  lemma {:induction false} RegionReadsBack(bytes: seq<Byte>, at: nat, baseShift: nat,
                                           blocks: seq<Block>, required: Option<nat>)
    requires ConformingBlocks(baseShift, blocks) && RegionAt(bytes, at, baseShift, blocks)
    requires StartsWithKey(required, blocks)
    ensures ReadBlocks(bytes, baseShift, at, required) == Ok(ViewsOf(at, baseShift, blocks))
    ensures AllInBounds(bytes, ViewsOf(at, baseShift, blocks))
    ensures RecoverAll(bytes, ViewsOf(at, baseShift, blocks)) == blocks
    decreases |blocks|
  {
    hide Region, ReadBlocks, ReadBlock, BlockAt, ConformingBlock, Recover, AlignUp, Power2,
      ConformingBlocks, PayloadStart;
    if |blocks| == 0 {
      EmptyRegion(at, baseShift, blocks);
      ReadNothing(bytes, baseShift, at, required);
    } else {
      var v := ViewOf(at, baseShift, blocks[0]);
      var next := NextStart(at, baseShift, blocks[0]);
      var rest := ViewsOf(next, baseShift, blocks[1..]);
      TailConforms(baseShift, blocks);
      if |blocks| == 1 {
        LastRegion(bytes, at, baseShift, blocks);
      } else {
        RegionSplits(bytes, at, baseShift, blocks);
        RegionReadsBack(bytes, next, baseShift, blocks[1..], RequiredAfter(v));
        NotEmpty(bytes, next, baseShift, blocks[1..]);
      }
      BlockReadsBack(bytes, at, baseShift, blocks[0], required);
      assert BadEnding(bytes, v).None?;
      NotEmpty(bytes, at, baseShift, blocks);
      ReadBlocksStep(bytes, baseShift, at, required, v);
      if |blocks| == 1 {
        assert rest == [] && [v] + rest == [v];
      } else {
        assert v.payloadEnd != |bytes|;
      }
      assert ViewsOf(at, baseShift, blocks)[1..] == rest;
    }
  }

  lemma NotEmpty(bytes: seq<Byte>, at: nat, baseShift: nat, blocks: seq<Block>)
    requires |blocks| > 0 && RegionAt(bytes, at, baseShift, blocks)
    ensures at < |bytes|
  {
    hide Region, BlockBytes, AlignUp, Power2, PayloadStart;
    RegionLength(at, baseShift, blocks);
  }

  /** If the walk succeeds, the rest of the file is the writing of the recovered blocks. */
  lemma {:induction false} RegionWasWritten(bytes: seq<Byte>, at: nat, baseShift: nat,
                                            required: Option<nat>, vs: seq<View>)
    requires at <= |bytes| && ReadBlocks(bytes, baseShift, at, required) == Ok(vs)
    requires required.Some? ==> at < |bytes|
    ensures AllInBounds(bytes, vs)
    ensures var blocks := RecoverAll(bytes, vs);
            && ConformingBlocks(baseShift, blocks) && StartsWithKey(required, blocks)
            && RegionAt(bytes, at, baseShift, blocks) && vs == ViewsOf(at, baseShift, blocks)
    decreases |bytes| - at
  {
    hide Region, ReadBlocks, ReadBlock, BlockAt, ConformingBlock, Recover, AlignUp, Power2,
      ConformingBlocks, PayloadStart;
    if at == |bytes| {
      ReadNothing(bytes, baseShift, at, required);
      EmptyRegion(at, baseShift, []);
      NothingConforms(baseShift);
    } else {
      if ReadBlock(bytes, baseShift, at, required).Err? {
        ReadBlocksFails(bytes, baseShift, at, required);
      }
      var v := ReadBlock(bytes, baseShift, at, required).value;
      BlockWasWritten(bytes, at, baseShift, required, v);
      ReadBlockAt(bytes, baseShift, at, required);
      ReadBlocksStep(bytes, baseShift, at, required, v);
      var b := Recover(bytes, v);
      if v.payloadEnd == |bytes| {
        NothingConforms(baseShift);
        ChainConforms(baseShift, b, []);
        assert [b] + [] == [b];
        assert RecoverAll(bytes, [v]) == [b];
        LastRegion(bytes, at, baseShift, [b]);
      } else {
        var rest := ReadBlocks(bytes, baseShift, v.nextStart, RequiredAfter(v)).value;
        assert vs == [v] + rest && vs[1..] == rest;
        RegionWasWritten(bytes, v.nextStart, baseShift, RequiredAfter(v), rest);
        var others := RecoverAll(bytes, rest);
        StillBlocks(bytes, v.nextStart, baseShift, others);
        ChainConforms(baseShift, b, others);
        assert RecoverAll(bytes, vs) == [b] + others && ([b] + others)[1..] == others;
        RegionSplits(bytes, at, baseShift, [b] + others);
      }
    }
  }

  lemma NothingConforms(baseShift: nat)
    ensures ConformingBlocks(baseShift, [])
  {
  }

  lemma StillBlocks(bytes: seq<Byte>, at: nat, baseShift: nat, blocks: seq<Block>)
    requires at < |bytes| && RegionAt(bytes, at, baseShift, blocks)
    ensures |blocks| > 0
  {
    if |blocks| == 0 {
      EmptyRegion(at, baseShift, blocks);
    }
  }

  // ---------------------------------------------------------------- the global header

  /** The walk over the records succeeds exactly on optional extensions that fill the header. */
  lemma {:induction false} ExtensionsAgree(bytes: seq<Byte>, at: nat, headerSize: nat)
    requires at <= headerSize <= |bytes| && at % 8 == 0 && headerSize % 8 == 0
    ensures BadExtension(bytes, at, headerSize).None? <==> OptionalExtensions(bytes[at..headerSize])
    decreases headerSize - at
  {
    hide *;
    if at == headerSize {
      NoExtensions(bytes, at, headerSize);
    } else {
      FirstRecordReads(bytes, at, headerSize);
      FirstRecordIsOptional(bytes[at..headerSize]);
      SliceWithin(bytes, at, headerSize, 2, 4);
      SliceWithin(bytes, at, headerSize, 4, 8);
      var flags, size := FromLe(bytes[at + 2..at + 4]), FromLe(bytes[at + 4..at + 8]);
      if flags == 0 && 8 <= size <= headerSize - at && size % 8 == 0 {
        ExtensionsAgree(bytes, at + size, headerSize);
        SliceOfSlice(bytes, at, headerSize, size);
      }
    }
  }

  lemma NoExtensions(bytes: seq<Byte>, at: nat, headerSize: nat)
    requires at == headerSize <= |bytes| && at % 8 == 0
    ensures BadExtension(bytes, at, headerSize).None? && OptionalExtensions(bytes[at..headerSize])
  {
  }

  lemma FirstRecordReads(bytes: seq<Byte>, at: nat, headerSize: nat)
    requires at < headerSize <= |bytes| && at % 8 == 0 && headerSize % 8 == 0
    ensures at + 8 <= headerSize
    ensures var size := FromLe(bytes[at + 4..at + 8]); size % 8 == 0 ==> (at + size) % 8 == 0
    ensures var flags, size := FromLe(bytes[at + 2..at + 4]), FromLe(bytes[at + 4..at + 8]);
            BadExtension(bytes, at, headerSize).None?
            <==> (flags == 0 && 8 <= size <= headerSize - at && size % 8 == 0
                  && BadExtension(bytes, at + size, headerSize).None?)
  {
    hide FromLe;
    SumOfEights(at, FromLe(bytes[at + 4..at + 8]));
  }

  lemma SumOfEights(a: nat, b: nat)
    requires a % 8 == 0
    ensures b % 8 == 0 ==> (a + b) % 8 == 0
  {
  }

  lemma FirstRecordIsOptional(extension: seq<Byte>)
    requires |extension| >= 8
    ensures var size := FromLe(extension[4..8]);
            OptionalExtensions(extension)
            <==> (FromLe(extension[2..4]) == 0 && 8 <= size <= |extension| && size % 8 == 0
                  && OptionalExtensions(extension[size..]))
  {
    hide FromLe;
  }

  lemma SliceOfSlice(bytes: seq<Byte>, at: nat, end: nat, n: nat)
    requires at + n <= end <= |bytes|
    ensures bytes[at..end][n..] == bytes[at + n..end]
  {
  }

  lemma SliceWithin(bytes: seq<Byte>, at: nat, end: nat, i: nat, j: nat)
    requires i <= j && at + j <= end <= |bytes|
    ensures bytes[at..end][i..j] == bytes[at + i..at + j]
  {
    var inner, outer := bytes[at..end][i..j], bytes[at + i..at + j];
    forall k | 0 <= k < j - i ensures inner[k] == outer[k] {
      assert inner[k] == bytes[at..end][i + k] == bytes[at + i + k];
    }
    assert inner == outer;
  }

  /** The fixed 24 bytes, field by field. */
  predicate PreambleAt(bytes: seq<Byte>, baseShift: Byte, size: nat, flags: Byte, headerSize: nat) {
    && |bytes| >= 24 && bytes[0..4] == [86, 66, 85, 70] && bytes[4..8] == ToLe(4, 0x0006_0000)
    && bytes[8] == baseShift && bytes[9] == flags && bytes[10..12] == ToLe(2, headerSize)
    && bytes[12..16] == ToLe(4, 0) && bytes[16..24] == ToLe(8, size)
  }

  lemma SixPieces(a: seq<Byte>, b: seq<Byte>, c: seq<Byte>, d: seq<Byte>, e: seq<Byte>, f: seq<Byte>)
    requires |a| == |b| == 4 && |c| == |d| == 2 && |e| == 4 && |f| == 8
    ensures var p := a + b + c + d + e + f;
            && p[0..4] == a && p[4..8] == b && p[8] == c[0] && p[9] == c[1]
            && p[10..12] == d && p[12..16] == e && p[16..24] == f
  {
    var p := a + b + c + d + e + f;
    assert p[12..24] == e + f && p[8..12] == c + d && p[0..8] == a + b;
    assert p[10..12] == p[8..12][2..4];
  }

  lemma PreambleParts(bytes: seq<Byte>, baseShift: Byte, size: nat, flags: Byte, headerSize: nat)
    requires |bytes| >= 24
    ensures bytes[..24] == Preamble(baseShift, size, flags, headerSize)
            <==> PreambleAt(bytes, baseShift, size, flags, headerSize)
  {
    hide ToLe;
    SixPieces([86, 66, 85, 70], ToLe(4, 0x0006_0000), [baseShift, flags], ToLe(2, headerSize),
              ToLe(4, 0), ToLe(8, size));
    var head := bytes[..24];
    assert head == head[0..4] + head[4..8] + [head[8], head[9]] + head[10..12] + head[12..16]
                   + head[16..24];
    assert head[0..4] == bytes[0..4] && head[4..8] == bytes[4..8] && head[10..12] == bytes[10..12];
    assert head[12..16] == bytes[12..16] && head[16..24] == bytes[16..24];
  }

  lemma PreambleReads(bytes: seq<Byte>, baseShift: Byte, size: nat, flags: Byte, headerSize: nat)
    requires PreambleAt(bytes, baseShift, size, flags, headerSize)
    requires size < WORD64 && headerSize < 0x1_0000
    ensures FromLe(bytes[4..8]) == 0x0006_0000 && FromLe(bytes[10..12]) == headerSize
    ensures FromLe(bytes[12..16]) == 0 && FromLe(bytes[16..24]) == size
  {
    hide ToLe, FromLe, Power256;
    FieldSizes();
    FromTo(4, 0x0006_0000);
    FromTo(2, headerSize);
    FromTo(4, 0);
    FromTo(8, size);
  }

  lemma PreambleWritten(bytes: seq<Byte>)
    requires |bytes| >= 24 && bytes[0..4] == [86, 66, 85, 70]
    requires FromLe(bytes[4..8]) == 0x0006_0000 && FromLe(bytes[12..16]) == 0
    ensures var headerSize, size := FromLe(bytes[10..12]), FromLe(bytes[16..24]);
            && headerSize < 0x1_0000 && size < WORD64
            && PreambleAt(bytes, bytes[8], size, bytes[9], headerSize)
  {
    hide ToLe, FromLe, Power256;
    FieldSizes();
    ToFrom(bytes[4..8]);
    ToFrom(bytes[10..12]);
    ToFrom(bytes[12..16]);
    ToFrom(bytes[16..24]);
  }

  lemma ConformingPacks(doc: Doc)
    requires Conforming(doc)
    ensures Packable(doc) && Image(doc) == HeadOf(doc) + DataRegion(doc)
    ensures |HeadOf(doc)| == DataStart(doc.headerSize, doc.baseShift)
  {
    hide ToLe, Anchor, Region, OptionalExtensions, AlignUp, Power2;
    forall i | 0 <= i < |doc.blocks| ensures PackableBlock(doc.blocks[i]) {
      ConformingFits(doc.baseShift, doc.blocks[i]);
      AnchorIsSum(FieldsOf(doc.blocks[i]));
    }
  }

  /** Everything before the first block. */
  function HeadOf(doc: Doc): seq<Byte>
    requires doc.baseShift < 256 && doc.flags < 256
  {
    Preamble(doc.baseShift, DeclaredSize(doc), doc.flags, doc.headerSize) + doc.extension
    + Zeros(DataStart(doc.headerSize, doc.baseShift) - doc.headerSize)
  }

  predicate HeadParts(bytes: seq<Byte>, doc: Doc)
    requires doc.baseShift < 256 && doc.flags < 256
  {
    var start := DataStart(doc.headerSize, doc.baseShift);
    && 24 <= doc.headerSize && start <= |bytes|
    && bytes[..24] == Preamble(doc.baseShift, DeclaredSize(doc), doc.flags, doc.headerSize)
    && bytes[24..doc.headerSize] == doc.extension
    && bytes[doc.headerSize..start] == Zeros(start - doc.headerSize)
  }

  lemma HeadSplits(bytes: seq<Byte>, doc: Doc)
    requires doc.baseShift < 256 && doc.flags < 256 && doc.headerSize == 24 + |doc.extension|
    requires DataStart(doc.headerSize, doc.baseShift) <= |bytes|
    ensures HeadParts(bytes, doc)
            <==> bytes[..DataStart(doc.headerSize, doc.baseShift)] == HeadOf(doc)
  {
    hide Preamble, DataStart, DeclaredSize;
    var start := DataStart(doc.headerSize, doc.baseShift);
    var p := Preamble(doc.baseShift, DeclaredSize(doc), doc.flags, doc.headerSize);
    var zeros := Zeros(start - doc.headerSize);
    assert bytes[..start] == bytes[..24] + (bytes[24..doc.headerSize] + bytes[doc.headerSize..start]);
    assert HeadOf(doc) == p + (doc.extension + zeros);
    if bytes[..start] == HeadOf(doc) {
      SamePieces(bytes[..start], bytes[..24], bytes[24..doc.headerSize] + bytes[doc.headerSize..start],
                 p, doc.extension + zeros);
      SamePieces(bytes[24..doc.headerSize] + bytes[doc.headerSize..start],
                 bytes[24..doc.headerSize], bytes[doc.headerSize..start], doc.extension, zeros);
    }
  }

  /** The header of a document is read back, unless it declares another length than the file has. */
  lemma HeaderReadsBack(bytes: seq<Byte>, doc: Doc)
    requires Conforming(doc) && HeadParts(bytes, doc)
    ensures DataStart(doc.headerSize, doc.baseShift) <= |bytes|
    ensures ReadHeader(bytes)
            == if doc.flags == 0 && |bytes| != DataStart(doc.headerSize, doc.baseShift) + |DataRegion(doc)|
               then Err(LengthMismatch) else Ok(HeaderOf(doc, |bytes|))
  {
    hide Preamble, DataStart, Step, FromLe, ToLe, DataRegion, BadExtension, OptionalExtensions,
      ConformingBlocks;
    var size := DeclaredSize(doc);
    PreambleParts(bytes, doc.baseShift, size, doc.flags, doc.headerSize);
    PreambleReads(bytes, doc.baseShift, size, doc.flags, doc.headerSize);
    ExtensionsAgree(bytes, 24, doc.headerSize);
  }

  lemma HeaderWasWritten(bytes: seq<Byte>, h: Header)
    requires ReadHeader(bytes) == Ok(h)
    ensures 24 <= h.headerSize <= h.dataStart <= |bytes| && h.headerSize < 0x1_0000
    ensures 3 <= h.baseShift <= 8 && h.headerSize % 8 == 0
    ensures OptionalExtensions(bytes[24..h.headerSize])
    ensures h == Header(h.baseShift, Step(h.baseShift), h.indefinite, h.headerSize,
                        DataStart(h.headerSize, h.baseShift), |bytes| - h.dataStart, |bytes|)
    ensures PreambleAt(bytes, h.baseShift, if h.indefinite then 0 else |bytes| - h.dataStart,
                       if h.indefinite then 1 else 0, h.headerSize)
    ensures bytes[h.headerSize..h.dataStart] == Zeros(h.dataStart - h.headerSize)
  {
    hide DataStart, Step, FromLe, ToLe, BadExtension, OptionalExtensions;
    PreambleWritten(bytes);
    ExtensionsAgree(bytes, 24, h.headerSize);
  }

  // ---------------------------------------------------------------- main theorems

  /** The reader accepts the image of every conforming document, reports where each block lies,
      and the document can be rebuilt from what it reports. */
  lemma WrittenIsRead(doc: Doc)
    requires Conforming(doc)
    ensures Packable(doc)
    ensures var bytes := Image(doc);
            var start := DataStart(doc.headerSize, doc.baseShift);
            var p := Parsed(HeaderOf(doc, |bytes|), ViewsOf(start, doc.baseShift, doc.blocks));
            && |bytes| < SLICE_LIMIT && Parse(bytes) == Ok(p)
            && WithinFile(bytes, p) && RecoverDoc(bytes, p) == doc
  {
    hide Region, DataStart, ReadBlocks, ReadHeader, HeadOf, ConformingBlocks, OptionalExtensions,
      Image, Packable, DeclaredSize, HeadParts, Step, ViewsOf;
    ConformingPacks(doc);
    var bytes := Image(doc);
    var start := DataStart(doc.headerSize, doc.baseShift);
    AppendSplits(HeadOf(doc), DataRegion(doc));
    HeadSplits(bytes, doc);
    HeaderReadsBack(bytes, doc);
    RegionReadsBack(bytes, start, doc.baseShift, doc.blocks, None);
    assert bytes[24..doc.headerSize] == doc.extension by {
      ExtensionPart(bytes, doc);
    }
  }

  lemma AppendSplits(x: seq<Byte>, y: seq<Byte>)
    ensures (x + y)[..|x|] == x && (x + y)[|x|..] == y
  {
  }

  lemma ExtensionPart(bytes: seq<Byte>, doc: Doc)
    requires doc.baseShift < 256 && doc.flags < 256 && HeadParts(bytes, doc)
    ensures 24 <= doc.headerSize <= |bytes| && bytes[24..doc.headerSize] == doc.extension
  {
  }

  /** Whatever the reader accepts is the image of a conforming document, the one rebuilt from its
      report. */
  lemma ReadWasWritten(bytes: seq<Byte>, p: Parsed)
    requires |bytes| < SLICE_LIMIT && Parse(bytes) == Ok(p)
    ensures WithinFile(bytes, p)
    ensures var doc := RecoverDoc(bytes, p);
            Conforming(doc) && Packable(doc) && Image(doc) == bytes
  {
    hide Region, DataStart, ReadBlocks, ReadHeader, HeadOf, ConformingBlocks, OptionalExtensions,
      Image, Packable, HeadParts, Step, ViewsOf, PreambleAt, Preamble;
    var h := p.header;
    HeaderWasWritten(bytes, h);
    RegionWasWritten(bytes, h.dataStart, h.baseShift, None, p.blocks);
    var doc := RecoverDoc(bytes, p);
    assert doc.headerSize == 24 + |doc.extension|;
    assert bytes[h.dataStart..] == DataRegion(doc) by {
      assert RegionAt(bytes, h.dataStart, h.baseShift, doc.blocks);
    }
    ConformingPacks(doc);
    PreambleParts(bytes, h.baseShift, DeclaredSize(doc), doc.flags, doc.headerSize);
    PartsFound(bytes, doc);
    HeadSplits(bytes, doc);
    assert bytes == bytes[..h.dataStart] + bytes[h.dataStart..];
  }

  lemma PartsFound(bytes: seq<Byte>, doc: Doc)
    requires doc.baseShift < 256 && doc.flags < 256 && 24 <= doc.headerSize
    requires DataStart(doc.headerSize, doc.baseShift) <= |bytes|
    requires bytes[..24] == Preamble(doc.baseShift, DeclaredSize(doc), doc.flags, doc.headerSize)
    requires bytes[24..doc.headerSize] == doc.extension
    requires var start := DataStart(doc.headerSize, doc.baseShift);
             bytes[doc.headerSize..start] == Zeros(start - doc.headerSize)
    ensures HeadParts(bytes, doc)
  {
  }

  /** The reader accepts exactly the images of conforming documents. */
  lemma AcceptsExactly(bytes: seq<Byte>)
    requires |bytes| < SLICE_LIMIT
    ensures Parse(bytes).Ok? <==>
              exists doc :: Conforming(doc) && Packable(doc) && Image(doc) == bytes
  {
    hide Parse, Conforming, Packable, Image;
    if Parse(bytes).Ok? {
      ReadWasWritten(bytes, Parse(bytes).value);
    }
    if doc :| Conforming(doc) && Packable(doc) && Image(doc) == bytes {
      WrittenIsRead(doc);
    }
  }

  /** Two conforming documents with the same image are the same document. */
  lemma ImageInjective(doc: Doc, other: Doc)
    requires Conforming(doc) && Conforming(other)
    requires Packable(doc) && Packable(other) && Image(doc) == Image(other)
    ensures doc == other
  {
    hide *;
    WrittenIsRead(doc);
    WrittenIsRead(other);
  }
}
