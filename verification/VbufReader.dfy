/** The checked vBuf v0.6 reader: it validates the global header and walks the blocks, each of
    which says where the next one starts. Byte slices are shorter than 2^63. */
module VbufReader {
  import opened Bytes
  import opened Common
  import opened VbufFormat

  datatype Error =
    | TooShort | BadMagic | UnsupportedVersion | InvalidBaseShift | InvalidFlags
    | InvalidHeaderSize | InvalidReserved | InvalidExtension | UnknownRequiredExtension
    | LengthMismatch | ArithmeticOverflow | TruncatedBlock | InvalidAnchor
    | InvalidRepresentation | NonCanonicalCount | InvalidContinuation | NonZeroPadding
    | Misaligned

  datatype Header = Header(baseShift: nat, baseStep: nat, indefinite: bool, headerSize: nat,
                           dataStart: nat, dataSize: nat, dataEnd: nat)

  /** A validated block: where it lies and what its anchor says. */
  datatype View = View(blockStart: nat, payloadStart: nat, payloadLength: nat, payloadEnd: nat,
                       nextStart: nat, key: nat, semantic: nat, physical: nat,
                       continuation: bool, width: nat, count: nat, alignment: nat)

  datatype Parsed = Parsed(header: Header, blocks: seq<View>)

  const SLICE_LIMIT: nat := 0x8000_0000_0000_0000

  // ---------------------------------------------------------------- the global header

  function NonZero(bytes: seq<Byte>, start: nat, end: nat): Option<Error>
    requires start <= end
  {
    if end > |bytes| then Some(LengthMismatch)
    else if bytes[start..end] != Zeros(end - start) then Some(NonZeroPadding)
    else None
  }

  /** The walk over the extension records between byte 24 and the end of the header. */
  function BadExtension(bytes: seq<Byte>, at: nat, headerSize: nat): Option<Error>
    requires at <= headerSize <= |bytes| && at % 8 == 0 && headerSize % 8 == 0
    decreases headerSize - at
  {
    if at == headerSize then None
    else
      var flags, size := FromLe(bytes[at + 2..at + 4]), FromLe(bytes[at + 4..at + 8]);
      if flags > 1 || size < 8 || size % 8 != 0 || at + size > headerSize then
        Some(InvalidExtension)
      else if flags == 1 then Some(UnknownRequiredExtension)
      else BadExtension(bytes, at + size, headerSize)
  }

  function BadPreamble(bytes: seq<Byte>): Option<Error> {
    if |bytes| < 24 then Some(TooShort)
    else if bytes[0..4] != [86, 66, 85, 70] then Some(BadMagic)
    else if FromLe(bytes[4..8]) != 0x0006_0000 then Some(UnsupportedVersion)
    else if !(3 <= bytes[8] <= 8) then Some(InvalidBaseShift)
    else if bytes[9] > 1 then Some(InvalidFlags)
    else
      var headerSize := FromLe(bytes[10..12]);
      if headerSize < 24 || headerSize % 8 != 0 then Some(InvalidHeaderSize)
      else if headerSize > |bytes| then Some(TooShort)
      else if FromLe(bytes[12..16]) != 0 then Some(InvalidReserved)
      else if bytes[9] == 1 && FromLe(bytes[16..24]) != 0 then Some(LengthMismatch)
      else BadExtension(bytes, 24, headerSize)
  }

  function ReadHeader(bytes: seq<Byte>): Result<Header, Error> {
    var bad := BadPreamble(bytes);
    if bad.Some? then Err(bad.value)
    else
      var headerSize := FromLe(bytes[10..12]);
      var start := DataStart(headerSize, bytes[8]);
      if start > |bytes| then Err(TooShort)
      else
        var padding := NonZero(bytes, headerSize, start);
        if padding.Some? then Err(padding.value)
        else if bytes[9] == 0 && start + FromLe(bytes[16..24]) >= WORD64 then
          Err(ArithmeticOverflow)
        else if bytes[9] == 0 && start + FromLe(bytes[16..24]) != |bytes| then
          Err(LengthMismatch)
        else
          Ok(Header(bytes[8], Step(bytes[8]), bytes[9] == 1, headerSize, start, |bytes| - start,
                    |bytes|))
  }

  // ---------------------------------------------------------------- one block

  function ReadCount(bytes: seq<Byte>, at: nat, f: Fields): Result<nat, Error> {
    if !f.count64 then Ok(f.inlineCount)
    else if at + 16 > |bytes| then Err(TruncatedBlock)
    else if f.inlineCount != 0 then Err(NonCanonicalCount)
    else
      var count := FromLe(bytes[at + 8..at + 16]);
      if count <= 65535 then Err(NonCanonicalCount) else Ok(count)
  }

  predicate Representable(semantic: nat, physical: nat, width: nat, count: nat) {
    && (match semantic
        case 0 => width == 8 || width == 16 || width == 32 || width == 64
        case 1 => width == 32 || width == 64
        case 2 => width == 8 || width == 16 || width == 32 || width == 64
        case 3 => width == 8
        case _ => false)
    && ((physical == 0 && count == 1) || physical == 1)
  }

  function PayloadBits(count: nat, width: nat): nat {
    count * width
  }

  function PayloadLength(count: nat, width: nat): nat {
    var bits := PayloadBits(count, width);
    bits / 8 + if bits % 8 != 0 then 1 else 0
  }

  function ReadPayload(bytes: seq<Byte>, baseShift: nat, at: nat, f: Fields, count: nat)
      : Result<View, Error>
  {
    if !Representable(f.semantic, f.physical, f.width, count) then Err(InvalidRepresentation)
    else if baseShift + f.payloadShift > 63 then Err(Misaligned)
    else
      var alignment := Power2(baseShift + f.payloadShift);
      var headerEnd := at + if f.count64 then 16 else 8;
      var start := AlignUp(headerEnd, alignment);
      var padding := NonZero(bytes, headerEnd, start);
      if padding.Some? then Err(padding.value)
      else if PayloadBits(count, f.width) >= WORD64 then Err(ArithmeticOverflow)
      else
        var length := PayloadLength(count, f.width);
        if start + length > |bytes| then Err(TruncatedBlock)
        else
          Ok(View(at, start, length, start + length, AlignUp(start + length, Step(baseShift)),
                  f.key, f.semantic, f.physical, f.continuation, f.width, count, alignment))
  }

  function ReadBlock(bytes: seq<Byte>, baseShift: nat, at: nat, required: Option<nat>)
      : Result<View, Error>
  {
    if at + 8 > |bytes| then Err(TruncatedBlock)
    else
      var anchor := FromLe(bytes[at..at + 8]);
      var f := Decode(anchor);
      if anchor == 0 then Err(InvalidAnchor)
      else if required.Some? && required.value != f.key then Err(InvalidContinuation)
      else
        var count := ReadCount(bytes, at, f);
        if count.Err? then Err(count.error)
        else ReadPayload(bytes, baseShift, at, f, count.value)
  }

  lemma ReadBlockAt(bytes: seq<Byte>, baseShift: nat, at: nat, required: Option<nat>)
    ensures var r := ReadBlock(bytes, baseShift, at, required);
            r.Ok? ==> r.value.blockStart == at && at + 8 <= r.value.payloadStart <= r.value.payloadEnd
                      && r.value.payloadEnd <= |bytes| && r.value.payloadEnd <= r.value.nextStart
  {
    hide Power2, Decode, FromLe, PayloadBits, Representable;
  }

  // ---------------------------------------------------------------- the walk

  /** What the reader says about a block that read well, before it goes on: None to go on. */
  function BadEnding(bytes: seq<Byte>, v: View): Option<Error>
    requires v.payloadEnd <= v.nextStart
  {
    if v.continuation && (v.payloadEnd == |bytes| || v.nextStart >= |bytes|) then
      Some(InvalidContinuation)
    else if v.payloadEnd == |bytes| then None
    else if v.nextStart >= |bytes| then Some(LengthMismatch)
    else NonZero(bytes, v.payloadEnd, v.nextStart)
  }

  function RequiredAfter(v: View): Option<nat> {
    if v.continuation then Some(v.key) else None
  }

  function ReadBlocks(bytes: seq<Byte>, baseShift: nat, at: nat, required: Option<nat>)
      : Result<seq<View>, Error>
    decreases if at < |bytes| then |bytes| - at else 0
  {
    if at >= |bytes| then Ok([])
    else
      var block := ReadBlock(bytes, baseShift, at, required);
      ReadBlockAt(bytes, baseShift, at, required);
      if block.Err? then Err(block.error)
      else
        var v := block.value;
        var bad := BadEnding(bytes, v);
        if bad.Some? then Err(bad.value)
        else if v.payloadEnd == |bytes| then Ok([v])
        else
          var rest := ReadBlocks(bytes, baseShift, v.nextStart, RequiredAfter(v));
          if rest.Err? then rest else Ok([v] + rest.value)
  }

  function Parse(bytes: seq<Byte>): Result<Parsed, Error> {
    var header := ReadHeader(bytes);
    if header.Err? then Err(header.error)
    else
      var blocks := ReadBlocks(bytes, header.value.baseShift, header.value.dataStart, None);
      if blocks.Err? then Err(blocks.error) else Ok(Parsed(header.value, blocks.value))
  }

  // ---------------------------------------------------------------- the reader's loops

  lemma AlignFits(v: nat, k: nat)
    requires v < SLICE_LIMIT && k <= 63
    ensures v + Power2(k) - 1 < WORD64
  {
    PowerGrows(k, 63);
    assert Power2(63) == SLICE_LIMIT by {
      hide *;
      FieldPowers();
      PowerSum(48, 10);
      PowerSum(58, 4);
      Power2Step(62);
    }
  }

  lemma Power2Step(k: nat)
    ensures Power2(k + 1) == 2 * Power2(k)
  {
  }

  lemma {:induction false} PowerGrows(i: nat, j: nat)
    requires i <= j
    ensures Power2(i) <= Power2(j)
    decreases j
  {
    if i < j {
      PowerGrows(i, j - 1);
    }
  }

  lemma ReadBlocksStep(bytes: seq<Byte>, baseShift: nat, at: nat, required: Option<nat>, v: View)
    requires at < |bytes| && ReadBlock(bytes, baseShift, at, required) == Ok(v)
    requires v.payloadEnd <= v.nextStart
    ensures var bad := BadEnding(bytes, v);
            var all := ReadBlocks(bytes, baseShift, at, required);
            && (bad.Some? ==> all == Err(bad.value))
            && (bad.None? && v.payloadEnd == |bytes| ==> all == Ok([v]))
            && (bad.None? && v.payloadEnd != |bytes| ==>
                  at < v.nextStart < |bytes| && all == Prefixed([v],
                    ReadBlocks(bytes, baseShift, v.nextStart, RequiredAfter(v))))
  {
    hide ReadBlock, NonZero;
    ReadBlockAt(bytes, baseShift, at, required);
  }

  lemma ExtensionStep(bytes: seq<Byte>, at: nat, headerSize: nat)
    requires at + 8 <= headerSize <= |bytes| && at % 8 == 0 && headerSize % 8 == 0
    ensures var flags, size := FromLe(bytes[at + 2..at + 4]), FromLe(bytes[at + 4..at + 8]);
            !(flags > 1 || size < 8 || size % 8 != 0 || at + size > headerSize || flags == 1) ==>
              BadExtension(bytes, at, headerSize) == BadExtension(bytes, at + size, headerSize)
  {
    hide FromLe;
  }

  method CheckExtensions(bytes: seq<Byte>, headerSize: nat) returns (r: Option<Error>)
    requires 24 <= headerSize <= |bytes| && headerSize % 8 == 0
    ensures r == BadExtension(bytes, 24, headerSize)
  {
    hide FromLe, BadExtension;
    var at := 24;
    while at < headerSize
      invariant at <= headerSize && at % 8 == 0
      invariant BadExtension(bytes, at, headerSize) == BadExtension(bytes, 24, headerSize)
    {
      var flags := FromLe(bytes[at + 2..at + 4]);
      var size := FromLe(bytes[at + 4..at + 8]);
      ExtensionFails(bytes, at, headerSize);
      if flags > 1 || size < 8 || size % 8 != 0 {
        return Some(InvalidExtension);
      }
      if at + size > headerSize {
        return Some(InvalidExtension);
      }
      if flags == 1 {
        return Some(UnknownRequiredExtension);
      }
      ExtensionStep(bytes, at, headerSize);
      at := at + size;
    }
    NoExtension(bytes, headerSize);
    return None;
  }

  lemma NoExtension(bytes: seq<Byte>, headerSize: nat)
    requires headerSize <= |bytes| && headerSize % 8 == 0
    ensures BadExtension(bytes, headerSize, headerSize).None?
  {
  }

  lemma ExtensionFails(bytes: seq<Byte>, at: nat, headerSize: nat)
    requires at + 8 <= headerSize <= |bytes| && at % 8 == 0 && headerSize % 8 == 0
    ensures var flags, size := FromLe(bytes[at + 2..at + 4]), FromLe(bytes[at + 4..at + 8]);
            var bad := BadExtension(bytes, at, headerSize);
            && (flags > 1 || size < 8 || size % 8 != 0 || at + size > headerSize ==>
                  bad == Some(InvalidExtension))
            && (flags == 1 && size >= 8 && size % 8 == 0 && at + size <= headerSize ==>
                  bad == Some(UnknownRequiredExtension))
  {
    hide FromLe;
  }

  /** The reader's walk over the blocks. Block and payload starts are always aligned, so its own
      alignment tests never fire, and no 64-bit sum overflows. */
  method WalkBlocks(bytes: seq<Byte>, baseShift: nat, dataStart: nat)
      returns (r: Result<seq<View>, Error>)
    requires 3 <= baseShift <= 8 && |bytes| < SLICE_LIMIT && dataStart <= |bytes|
    requires dataStart % Step(baseShift) == 0
    ensures r == ReadBlocks(bytes, baseShift, dataStart, None)
  {
    hide ReadBlocks, ReadBlock, BadEnding, Prefixed, Step, RequiredAfter;
    var blocks: seq<View> := [];
    var at: nat := dataStart;
    var required: Option<nat> := None;
    ghost var whole := ReadBlocks(bytes, baseShift, dataStart, None);
    PrefixedNothing([], whole);
    while at < |bytes|
      invariant at <= |bytes| && at % Step(baseShift) == 0
      invariant whole == Prefixed(blocks, ReadBlocks(bytes, baseShift, at, required))
      decreases |bytes| - at
    {
      assert at % Step(baseShift) == 0 && at + 16 < WORD64;
      var block := ReadBlock(bytes, baseShift, at, required);
      if block.Err? {
        ReadBlocksFails(bytes, baseShift, at, required);
        PrefixedError(blocks, block.error);
        return Err(block.error);
      }
      var v := block.value;
      ReadBlockAt(bytes, baseShift, at, required);
      PayloadAligned(bytes, baseShift, at, required);
      ReadBlocksStep(bytes, baseShift, at, required, v);
      var bad := BadEnding(bytes, v);
      if bad.Some? {
        PrefixedError(blocks, bad.value);
        return Err(bad.value);
      }
      PrefixedTwice(blocks, [v], ReadBlocks(bytes, baseShift, v.nextStart, RequiredAfter(v)));
      PrefixedOk<View, Error>(blocks, [v]);
      blocks := blocks + [v];
      if v.payloadEnd == |bytes| {
        return Ok(blocks);
      }
      required := RequiredAfter(v);
      at := v.nextStart;
    }
    ReadNothing(bytes, baseShift, at, required);
    PrefixedOk<View, Error>(blocks, []);
    assert blocks + [] == blocks;
    return Ok(blocks);
  }

  lemma ReadNothing(bytes: seq<Byte>, baseShift: nat, at: nat, required: Option<nat>)
    requires at >= |bytes|
    ensures ReadBlocks(bytes, baseShift, at, required) == Ok([])
  {
  }

  lemma ReadBlocksFails(bytes: seq<Byte>, baseShift: nat, at: nat, required: Option<nat>)
    requires at < |bytes| && ReadBlock(bytes, baseShift, at, required).Err?
    ensures ReadBlocks(bytes, baseShift, at, required)
            == Err(ReadBlock(bytes, baseShift, at, required).error)
  {
    hide ReadBlock;
  }

  /** Payloads start on a multiple of their alignment, blocks on a multiple of the step, and the
      alignment arithmetic stays within 64 bits. */
  lemma PayloadAligned(bytes: seq<Byte>, baseShift: nat, at: nat, required: Option<nat>)
    requires |bytes| < SLICE_LIMIT && baseShift <= 8
    requires ReadBlock(bytes, baseShift, at, required).Ok?
    ensures var v := ReadBlock(bytes, baseShift, at, required).value;
            && v.payloadStart % v.alignment == 0 && v.payloadStart % Step(baseShift) == 0
            && v.nextStart % Step(baseShift) == 0
            && v.nextStart < WORD64
  {
    hide Power2, Decode, FromLe, PayloadBits, Representable, AlignUp;
    var v := ReadBlock(bytes, baseShift, at, required).value;
    var f := Decode(FromLe(bytes[at..at + 8]));
    PowerSum(baseShift, f.payloadShift);
    AlignMultiple(at + (if f.count64 then 16 else 8), Power2(baseShift), Power2(f.payloadShift));
    AlignMultiple(at + (if f.count64 then 16 else 8), v.alignment, 1);
    AlignMultiple(v.payloadEnd, Step(baseShift), 1);
    AlignFits(v.payloadEnd, baseShift);
  }

  method ParseV06(bytes: seq<Byte>) returns (r: Result<Parsed, Error>)
    requires |bytes| < SLICE_LIMIT
    ensures r == Parse(bytes)
  {
    hide FromLe, BadExtension, DataStart, Power2, ReadBlocks;
    if |bytes| < 24 {
      return Err(TooShort);
    }
    if bytes[0..4] != [86, 66, 85, 70] {
      return Err(BadMagic);
    }
    if FromLe(bytes[4..8]) != 0x0006_0000 {
      return Err(UnsupportedVersion);
    }
    var baseShift := bytes[8];
    if !(3 <= baseShift <= 8) {
      return Err(InvalidBaseShift);
    }
    var flags := bytes[9];
    if flags > 1 {
      return Err(InvalidFlags);
    }
    var headerSize := FromLe(bytes[10..12]);
    if headerSize < 24 || headerSize % 8 != 0 {
      return Err(InvalidHeaderSize);
    }
    if headerSize > |bytes| {
      return Err(TooShort);
    }
    if FromLe(bytes[12..16]) != 0 {
      return Err(InvalidReserved);
    }
    var declaredSize := FromLe(bytes[16..24]);
    if flags == 1 && declaredSize != 0 {
      return Err(LengthMismatch);
    }
    var extension := CheckExtensions(bytes, headerSize);
    if extension.Some? {
      return Err(extension.value);
    }
    var start := DataStart(headerSize, baseShift);
    if start > |bytes| {
      return Err(TooShort);
    }
    var padding := NonZero(bytes, headerSize, start);
    if padding.Some? {
      return Err(padding.value);
    }
    if flags == 0 {
      if start + declaredSize >= WORD64 {
        return Err(ArithmeticOverflow);
      }
      if start + declaredSize != |bytes| {
        return Err(LengthMismatch);
      }
    }
    assert start % Step(baseShift) == 0 by {
      hide *;
      DataAligned(headerSize, baseShift);
    }
    var header := Header(baseShift, Step(baseShift), flags == 1, headerSize, start,
                         |bytes| - start, |bytes|);
    var blocks := WalkBlocks(bytes, baseShift, start);
    if blocks.Err? {
      return Err(blocks.error);
    }
    return Ok(Parsed(header, blocks.value));
  }

  lemma DataAligned(headerSize: nat, baseShift: nat)
    ensures DataStart(headerSize, baseShift) % Step(baseShift) == 0
  {
    StartsAligned(headerSize, baseShift);
  }
}
