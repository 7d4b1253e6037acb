/** The decoding loop of the correction stream, and the split of a quantised payload into code
    symbols and metadata that the correction is applied to. */
module CorrectionCodec {
  import opened Bytes
  import opened BitStream
  import opened Common
  import opened Correction

  // ---------------------------------------------------------------- the decoding loop

  lemma UnpackStep(prediction: seq<nat>, payload: seq<Byte>, cursor: nat, width: nat,
                   blockSize: nat, start: nat)
    requires blockSize > 0 && start < |prediction|
    ensures var end := Least(start + blockSize, |prediction|);
            Unpack(prediction[start..], payload, cursor, width, blockSize)
            == if !CountAgrees(payload, cursor, end - start) then Err(CountMismatch)
               else Prefixed(BlockValues(prediction[start..end], payload, cursor, width),
                      Unpack(prediction[end..], payload,
                             NextCursor(payload, cursor, end - start, width), width, blockSize))
  {
    hide CountAgrees, BlockValues, NextCursor;
    var end := Least(start + blockSize, |prediction|);
    var rest := prediction[start..];
    assert rest[..end - start] == prediction[start..end] && rest[end - start..] == prediction[end..];
  }

  lemma CountStep(match_: seq<bool>, width: nat, i: nat)
    requires i < |match_|
    ensures Skip(match_[i..], width)
            == (if match_[i] then 0 else width) + Skip(match_[i + 1..], width)
    ensures Misses(match_[i..]) == (if match_[i] then 0 else 1) + Misses(match_[i + 1..])
  {
    assert match_[i..][1..] == match_[i + 1..];
  }

  lemma PatchStep(prediction: seq<nat>, match_: seq<bool>, payload: seq<Byte>, cursor: nat,
                  width: nat, i: nat, done: seq<nat>, value: nat, next: nat)
    requires i < |match_| <= |prediction|
    requires value == if match_[i] then prediction[i] else FromLe(Clip(payload, cursor, cursor + width))
    requires next == if match_[i] then cursor else cursor + width
    ensures done + Patch(prediction[i..], match_[i..], payload, cursor, width)
            == done + [value] + Patch(prediction[i + 1..], match_[i + 1..], payload, next, width)
  {
    hide Clip, FromLe;
    assert prediction[i..][1..] == prediction[i + 1..] && match_[i..][1..] == match_[i + 1..];
    var rest := Patch(prediction[i + 1..], match_[i + 1..], payload, next, width);
    assert Patch(prediction[i..], match_[i..], payload, cursor, width) == [value] + rest;
    assert done + ([value] + rest) == done + [value] + rest;
  }

  /** The first `i` values of the window at `start` are decided, and hold `done`; the rest of the buffer
      is as it was in `original`. */
  ghost predicate PatchedTo(now: seq<nat>, original: seq<nat>, start: nat, prediction: seq<nat>,
                            match_: seq<bool>, payload: seq<Byte>, from: nat, width: nat,
                            i: nat, done: seq<nat>, cursor: nat, misses: nat)
    requires |match_| <= |prediction| && start + |prediction| <= |original| == |now|
  {
    var n := |prediction|;
    && i <= |match_| && |done| == i
    && now[..start] == original[..start] && now[start + n..] == original[start + n..]
    && now[start..start + n] == done + prediction[i..]
    && done + Patch(prediction[i..], match_[i..], payload, cursor, width)
       == Patch(prediction, match_, payload, from, width)
    && cursor + Skip(match_[i..], width) == from + Skip(match_, width)
    && misses + Misses(match_[i..]) == Misses(match_)
  }

  lemma NotPatched(now: seq<nat>, start: nat, prediction: seq<nat>, match_: seq<bool>,
                   payload: seq<Byte>, from: nat, width: nat)
    requires |match_| <= |prediction| && start + |prediction| <= |now|
    requires now[start..start + |prediction|] == prediction
    ensures PatchedTo(now, now, start, prediction, match_, payload, from, width, 0, [], from, 0)
  {
    hide Patch, Skip, Misses;
    assert prediction[0..] == prediction && match_[0..] == match_;
    assert [] + prediction == prediction;
    var all := Patch(prediction, match_, payload, from, width);
    assert [] + all == all;
  }

  lemma PatchedNext(was: seq<nat>, original: seq<nat>, start: nat, prediction: seq<nat>, match_: seq<bool>,
                    payload: seq<Byte>, from: nat, width: nat, i: nat, done: seq<nat>, cursor: nat,
                    misses: nat)
    requires |match_| <= |prediction| && start + |prediction| <= |original| == |was| && i < |match_|
    requires PatchedTo(was, original, start, prediction, match_, payload, from, width, i, done, cursor, misses)
    ensures was[start + i] == prediction[i]
    ensures match_[i] ==>
              PatchedTo(was, original, start, prediction, match_, payload, from, width, i + 1,
                        done + [prediction[i]], cursor, misses)
    ensures !match_[i] ==>
              var exact := FromLe(Clip(payload, cursor, cursor + width));
              PatchedTo(was[start + i := exact], original, start, prediction, match_, payload, from, width,
                        i + 1, done + [exact], cursor + width, misses + 1)
  {
    hide Patch, Skip, Misses, FromLe, Clip;
    var n := |prediction|;
    CountStep(match_, width, i);
    WindowEntry(was, start, n, i, done, prediction);
    var value := if match_[i] then prediction[i] else FromLe(Clip(payload, cursor, cursor + width));
    var next := if match_[i] then cursor else cursor + width;
    var now := was[start + i := value];
    assert match_[i] ==> now == was;
    WindowUpdate(was, now, start, n, i, value, done, prediction);
    PatchStep(prediction, match_, payload, cursor, width, i, done, value, next);
  }

  lemma AllPatched(now: seq<nat>, original: seq<nat>, start: nat, prediction: seq<nat>, match_: seq<bool>,
                   payload: seq<Byte>, from: nat, width: nat, done: seq<nat>, cursor: nat, misses: nat)
    requires |match_| <= |prediction| && start + |prediction| <= |original| == |now|
    requires PatchedTo(now, original, start, prediction, match_, payload, from, width, |match_|, done, cursor, misses)
    ensures now[..start] == original[..start]
    ensures now[start..start + |prediction|] == Patch(prediction, match_, payload, from, width)
    ensures now[start + |prediction|..] == original[start + |prediction|..]
    ensures cursor == from + Skip(match_, width) && misses == Misses(match_)
  {
    hide Patch, Skip, Misses;
    PatchDone(prediction[|match_|..], match_[|match_|..], payload, cursor, width);
  }

  /** Overwrites the unmatched values of one block in place. */
  method PatchBlock(result: array<nat>, start: nat, prediction: seq<nat>, match_: seq<bool>,
                    payload: seq<Byte>, from: nat, width: nat)
      returns (cursor: nat, misses: nat)
    requires |match_| <= |prediction| && start + |prediction| <= result.Length
    requires result[start..start + |prediction|] == prediction
    modifies result
    ensures result[..start] == old(result[..start])
    ensures result[start..start + |prediction|] == Patch(prediction, match_, payload, from, width)
    ensures result[start + |prediction|..] == old(result[start + |prediction|..])
    ensures cursor == from + Skip(match_, width) && misses == Misses(match_)
  {
    hide *;
    cursor, misses := from, 0;
    ghost var before := result[..];
    ghost var done: seq<nat> := [];
    NotPatched(before, start, prediction, match_, payload, from, width);
    var i := 0;
    while i < |match_|
      invariant 0 <= i <= |match_|
      invariant PatchedTo(result[..], before, start, prediction, match_, payload, from, width, i, done,
                          cursor, misses)
    {
      PatchedNext(result[..], before, start, prediction, match_, payload, from, width, i, done, cursor,
                  misses);
      if match_[i] {
        done := done + [prediction[i]];
      } else {
        ghost var was := result[..];
        var exact := FromLe(Clip(payload, cursor, cursor + width));
        result[start + i] := exact;
        assert result[..] == was[start + i := exact];
        cursor := cursor + width;
        misses := misses + 1;
        done := done + [exact];
      }
      i := i + 1;
    }
    AllPatched(result[..], before, start, prediction, match_, payload, from, width, done, cursor, misses);
  }

  lemma PatchDone(prediction: seq<nat>, match_: seq<bool>, payload: seq<Byte>, cursor: nat, width: nat)
    requires match_ == []
    ensures Patch(prediction, match_, payload, cursor, width) == prediction
    ensures Skip(match_, width) == 0 && Misses(match_) == 0
  {
  }

  lemma WindowEntry(was: seq<nat>, start: nat, n: nat, i: nat, done: seq<nat>, prediction: seq<nat>)
    requires i < n == |prediction| && start + n <= |was| && |done| == i
    requires was[start..start + n] == done + prediction[i..]
    ensures was[start + i] == prediction[i]
  {
    assert was[start..start + n][i] == (done + prediction[i..])[i];
  }

  lemma WindowUpdate(was: seq<nat>, now: seq<nat>, start: nat, n: nat, i: nat, value: nat,
                     done: seq<nat>, prediction: seq<nat>)
    requires i < n == |prediction| && start + n <= |was| == |now| && |done| == i
    requires was[start..start + n] == done + prediction[i..]
    requires now == was[start + i := value]
    ensures now[start..start + n] == done + [value] + prediction[i + 1..]
    ensures now[..start] == was[..start] && now[start + n..] == was[start + n..]
  {
    var window, expected := now[start..start + n], done + [value] + prediction[i + 1..];
    forall k | 0 <= k < n ensures window[k] == expected[k] {
      assert was[start..start + n][k] == (done + prediction[i..])[k];
    }
  }

  lemma TurnFails(done: seq<nat>, prediction: seq<nat>, payload: seq<Byte>, cursor: nat, width: nat,
                  blockSize: nat, start: nat)
    requires blockSize > 0 && start < |prediction|
    requires !CountAgrees(payload, cursor, Least(blockSize, |prediction| - start))
    ensures Prefixed(done, Unpack(prediction[start..], payload, cursor, width, blockSize)) == Err(CountMismatch)
  {
    hide CountAgrees, BlockValues, NextCursor, Unpack;
    UnpackStep(prediction, payload, cursor, width, blockSize, start);
  }

  lemma TurnSucceeds(done: seq<nat>, prediction: seq<nat>, payload: seq<Byte>, cursor: nat, width: nat,
                     blockSize: nat, start: nat)
    requires blockSize > 0 && start < |prediction|
    requires CountAgrees(payload, cursor, Least(blockSize, |prediction| - start))
    ensures var length := Least(blockSize, |prediction| - start);
            Prefixed(done, Unpack(prediction[start..], payload, cursor, width, blockSize))
            == Prefixed(done + BlockValues(prediction[start..start + length], payload, cursor, width),
                 Unpack(prediction[start + length..], payload, NextCursor(payload, cursor, length, width),
                        width, blockSize))
  {
    hide CountAgrees, BlockValues, NextCursor, Unpack, Prefixed;
    var end := Least(start + blockSize, |prediction|);
    UnpackStep(prediction, payload, cursor, width, blockSize, start);
    PrefixedTwice(done, BlockValues(prediction[start..end], payload, cursor, width),
                  Unpack(prediction[end..], payload, NextCursor(payload, cursor, end - start, width),
                         width, blockSize));
  }

  /** Decodes block after block over a copy of the prediction. */
  method UnpackMatchExceptions(prediction: seq<nat>, payload: seq<Byte>, symbolBits: nat,
                               blockSize: nat)
      returns (r: Result<seq<nat>, Error>)
    requires blockSize > 0
    ensures r == Unpack(prediction, payload, 0, Width(symbolBits), blockSize)
  {
    hide Unpack, CountAgrees, BlockValues, Skip, Patch, Misses, FromLe, Clip, ReadMatches, Prefixed;
    var width := Width(symbolBits);
    var result := new nat[|prediction|];
    forall i | 0 <= i < |prediction| {
      result[i] := prediction[i];
    }
    var cursor: nat := 0;
    var start := 0;
    assert prediction[0..] == prediction && result[0..] == prediction;
    PrefixedNothing(result[..0], Unpack(prediction, payload, 0, width, blockSize));
    while start < |prediction|
      invariant 0 <= start <= |prediction|
      invariant result[start..] == prediction[start..]
      invariant Prefixed(result[..start], Unpack(prediction[start..], payload, cursor, width, blockSize))
                == Unpack(prediction, payload, 0, width, blockSize)
    {
      var length := Least(blockSize, |prediction| - start);
      ghost var end := start + length;
      ghost var before, done, rest := cursor, result[..start], result[start..];
      var exceptionCount := FromLe(Clip(payload, cursor, cursor + 2));
      cursor := cursor + 2;
      var match_ := ReadMatches(payload, cursor, length);
      cursor := cursor + PackedLength(length);
      var block := prediction[start..start + length];
      assert result[start..end] == rest[..length] == prediction[start..][..length] == block;
      var misses;
      cursor, misses := PatchBlock(result, start, block, match_, payload, cursor, width);
      BlockFacts(block, payload, before, width, match_);
      if misses != exceptionCount {
        TurnFails(done, prediction, payload, before, width, blockSize, start);
        return Err(CountMismatch);
      }
      TurnSucceeds(done, prediction, payload, before, width, blockSize, start);
      assert result[..end] == done + result[start..end];
      assert prediction[end..] == prediction[start..][length..];
      start := start + length;
    }
    UnpackDone(prediction[start..], payload, cursor, width, blockSize);
    if cursor != |payload| {
      PrefixedError(result[..start], TrailingBytes);
      return Err(TrailingBytes);
    }
    PrefixedOk<nat, Error>(result[..start], []);
    assert result[..start] + [] == result[..start];
    assert result[..start] == result[..];
    return Ok(result[..]);
  }

  lemma BlockFacts(block: seq<nat>, payload: seq<Byte>, cursor: nat, width: nat, match_: seq<bool>)
    requires match_ == ReadMatches(payload, cursor + 2, |block|)
    ensures CountAgrees(payload, cursor, |block|)
            <==> Misses(match_) == FromLe(Clip(payload, cursor, cursor + 2))
    ensures BlockValues(block, payload, cursor, width)
            == Patch(block, match_, payload, cursor + 2 + PackedLength(|block|), width)
    ensures NextCursor(payload, cursor, |block|, width)
            == cursor + 2 + PackedLength(|block|) + Skip(match_, width)
  {
    hide FromLe, Clip, Misses, Skip, Patch, UnpackBits;
  }

  lemma UnpackDone(prediction: seq<nat>, payload: seq<Byte>, cursor: nat, width: nat, blockSize: nat)
    requires |prediction| == 0 && blockSize > 0
    ensures Unpack(prediction, payload, cursor, width, blockSize)
            == if cursor != |payload| then Err(TrailingBytes) else Ok([])
  {
  }

  // ---------------------------------------------------------------- codes and metadata

  /** Where the code symbols lie in a block of a quantised format. */
  datatype Spec = Spec(blockBytes: nat, codeOffset: nat, codeBytes: nat, symbolWidth: nat)

  const Q2_K := Spec(84, 16, 64, 1)
  const IQ2_XS := Spec(74, 2, 64, 2)
  const Q3_K := Spec(110, 0, 96, 1)
  const IQ3_XXS := Spec(98, 2, 96, 1)

  predicate ValidSpec(spec: Spec) {
    spec.codeOffset + spec.codeBytes <= spec.blockBytes
    && (spec.symbolWidth == 1 || (spec.symbolWidth == 2 && spec.codeBytes % 2 == 0))
  }

  function Total(blocks: nat, size: nat): nat {
    blocks * size
  }

  function SymbolCount(spec: Spec): nat
    requires ValidSpec(spec)
  {
    if spec.symbolWidth == 1 then spec.codeBytes else spec.codeBytes / 2
  }

  function MetadataBytes(spec: Spec): nat
    requires ValidSpec(spec)
  {
    spec.blockBytes - spec.codeBytes
  }

  /** Bytes viewed as little-endian symbols of one or two bytes. */
  function Symbols(bytes: seq<Byte>, width: nat): seq<nat>
    requires width > 0
    decreases |bytes|
  {
    if |bytes| < width then [] else [FromLe(bytes[..width])] + Symbols(bytes[width..], width)
  }

  function Codes(raw: seq<Byte>, spec: Spec, blocks: nat): seq<nat>
    requires ValidSpec(spec) && |raw| == Total(blocks, spec.blockBytes)
    decreases blocks
  {
    if blocks == 0 then []
    else
      TotalStep(blocks, spec);
      Symbols(raw[spec.codeOffset..spec.codeOffset + spec.codeBytes], spec.symbolWidth)
      + Codes(raw[spec.blockBytes..], spec, blocks - 1)
  }

  function Metadata(raw: seq<Byte>, spec: Spec, blocks: nat): (m: seq<Byte>)
    requires ValidSpec(spec) && |raw| == Total(blocks, spec.blockBytes)
    ensures |m| == Total(blocks, MetadataBytes(spec))
    decreases blocks
  {
    if blocks == 0 then []
    else
      TotalStep(blocks, spec);
      raw[..spec.codeOffset] + raw[spec.codeOffset + spec.codeBytes..spec.blockBytes]
      + Metadata(raw[spec.blockBytes..], spec, blocks - 1)
  }

  function Restore(codes: seq<nat>, metadata: seq<Byte>, spec: Spec, blocks: nat): seq<Byte>
    requires ValidSpec(spec) && |codes| == Total(blocks, SymbolCount(spec))
    requires |metadata| == Total(blocks, MetadataBytes(spec))
    decreases blocks
  {
    if blocks == 0 then []
    else
      TotalStep(blocks, spec);
      RestoredBlock(codes[..SymbolCount(spec)], metadata[..MetadataBytes(spec)], spec)
      + Restore(codes[SymbolCount(spec)..], metadata[MetadataBytes(spec)..], spec, blocks - 1)
  }

  function RestoredBlock(codes: seq<nat>, metadata: seq<Byte>, spec: Spec): (b: seq<Byte>)
    requires ValidSpec(spec) && |codes| == SymbolCount(spec) && |metadata| == MetadataBytes(spec)
    ensures |b| == spec.blockBytes
  {
    SymbolBytesLength(codes, spec.symbolWidth);
    metadata[..spec.codeOffset] + ValueBytes(codes, spec.symbolWidth)
    + metadata[spec.codeOffset..]
  }

  lemma {:induction false} SymbolBytesLength(codes: seq<nat>, width: nat)
    requires width == 1 || width == 2
    ensures |ValueBytes(codes, width)| == if width == 1 then |codes| else 2 * |codes|
  {
    hide ToLe;
    if codes != [] {
      SymbolBytesLength(codes[1..], width);
    }
  }

  lemma {:induction false} SymbolsRoundTrip(bytes: seq<Byte>, width: nat)
    requires width == 1 || (width == 2 && |bytes| % 2 == 0)
    ensures ValueBytes(Symbols(bytes, width), width) == bytes
    ensures ValuesFit(Symbols(bytes, width), width)
    ensures |Symbols(bytes, width)| == if width == 1 then |bytes| else |bytes| / 2
    decreases |bytes|
  {
    hide ToLe, FromLe, Power256;
    if |bytes| >= width {
      var rest := Symbols(bytes[width..], width);
      SymbolsRoundTrip(bytes[width..], width);
      ToFrom(bytes[..width]);
      assert Symbols(bytes, width)[1..] == rest;
      assert bytes == bytes[..width] + bytes[width..];
    }
  }

  /** One symbol, low byte first. */
  function SymbolAt(bytes: seq<Byte>, at: nat, width: nat): nat
    requires (width == 1 || width == 2) && at + width <= |bytes|
  {
    var low: nat := bytes[at];
    if width == 1 then low
    else
      var high: nat := bytes[at + 1];
      low + 256 * high
  }

  lemma {:induction false} SymbolIs(bytes: seq<Byte>, width: nat, i: nat)
    requires (width == 1 || width == 2) && width * i + width <= |bytes|
    ensures i < |Symbols(bytes, width)|
    ensures Symbols(bytes, width)[i] == SymbolAt(bytes, width * i, width)
    decreases i
  {
    hide FromLe;
    if i == 0 {
      FewBytes(bytes[..width]);
    } else {
      SymbolIs(bytes[width..], width, i - 1);
    }
  }

  lemma FewBytes(bytes: seq<Byte>)
    requires |bytes| == 1 || |bytes| == 2
    ensures FromLe(bytes) == SymbolAt(bytes, 0, |bytes|)
  {
    assert FromLe(bytes) == bytes[0] + 256 * FromLe(bytes[1..]);
    if |bytes| == 2 {
      assert FromLe(bytes[1..]) == bytes[1] + 256 * FromLe(bytes[1..][1..]);
    }
  }

  lemma InsideBlocks(b: nat, blocks: nat, size: nat)
    requires b < blocks
    ensures Total(b, size) + size <= Total(blocks, size)
  {
    MultiplesApart(b, blocks, size);
  }

  lemma FirstCodes(raw: seq<Byte>, spec: Spec, blocks: nat)
    requires ValidSpec(spec) && blocks > 0 && |raw| == Total(blocks, spec.blockBytes)
    ensures |raw| >= spec.blockBytes && |raw[spec.blockBytes..]| == Total(blocks - 1, spec.blockBytes)
    ensures var window := Symbols(raw[spec.codeOffset..spec.codeOffset + spec.codeBytes], spec.symbolWidth);
            && |window| == SymbolCount(spec)
            && Codes(raw, spec, blocks) == window + Codes(raw[spec.blockBytes..], spec, blocks - 1)
  {
    hide Symbols, Total;
    TotalStep(blocks, spec);
    BlockRestored(raw, spec);
  }

  lemma WindowSymbol(raw: seq<Byte>, spec: Spec, i: nat)
    requires ValidSpec(spec) && |raw| >= spec.blockBytes && i < SymbolCount(spec)
    ensures var window := Symbols(raw[spec.codeOffset..spec.codeOffset + spec.codeBytes], spec.symbolWidth);
            i < |window| && spec.codeOffset + spec.symbolWidth * i + spec.symbolWidth <= |raw|
            && window[i] == SymbolAt(raw, spec.codeOffset + spec.symbolWidth * i, spec.symbolWidth)
  {
    hide Symbols;
    SymbolIs(raw[spec.codeOffset..spec.codeOffset + spec.codeBytes], spec.symbolWidth, i);
  }

  /** Where block `b` of a payload starts, and its symbols in the list of all codes. */
  lemma BlockPlaces(spec: Spec, blocks: nat, b: nat)
    requires ValidSpec(spec) && b < blocks
    ensures Total(b, spec.blockBytes) + spec.blockBytes <= Total(blocks, spec.blockBytes)
    ensures Total(b, SymbolCount(spec)) + SymbolCount(spec) <= Total(blocks, SymbolCount(spec))
    ensures Total(b, MetadataBytes(spec)) + MetadataBytes(spec) <= Total(blocks, MetadataBytes(spec))
    ensures b == 0 ==> Total(b, spec.blockBytes) == Total(b, SymbolCount(spec)) == Total(b, MetadataBytes(spec)) == 0
    ensures b > 0 ==>
              && Total(b, spec.blockBytes) == spec.blockBytes + Total(b - 1, spec.blockBytes)
              && Total(b, SymbolCount(spec)) == SymbolCount(spec) + Total(b - 1, SymbolCount(spec))
              && Total(b, MetadataBytes(spec)) == MetadataBytes(spec) + Total(b - 1, MetadataBytes(spec))
  {
    hide Total;
    InsideBlocks(b, blocks, spec.blockBytes);
    InsideBlocks(b, blocks, SymbolCount(spec));
    InsideBlocks(b, blocks, MetadataBytes(spec));
    if b > 0 {
      TotalStep(b, spec);
    } else {
      NoBlocks(spec);
    }
  }

  /** Which bytes are codes: symbol `i` of block `b` starts at the code offset of that block plus `i`
      symbols. */
  lemma {:induction false} CodesAre(raw: seq<Byte>, spec: Spec, blocks: nat, b: nat, i: nat)
    requires ValidSpec(spec) && |raw| == Total(blocks, spec.blockBytes)
    requires b < blocks && i < SymbolCount(spec)
    ensures Total(b, SymbolCount(spec)) + i < |Codes(raw, spec, blocks)|
    ensures var at := Total(b, spec.blockBytes) + spec.codeOffset + spec.symbolWidth * i;
            at + spec.symbolWidth <= |raw|
            && Codes(raw, spec, blocks)[Total(b, SymbolCount(spec)) + i] == SymbolAt(raw, at, spec.symbolWidth)
    decreases blocks
  {
    hide Symbols, Total, Codes, SymbolCount, SymbolAt, Restore, Metadata, ValuesFit;
    BlockPlaces(spec, blocks, b);
    FirstCodes(raw, spec, blocks);
    if b == 0 {
      WindowSymbol(raw, spec, i);
    } else {
      var rest := raw[spec.blockBytes..];
      CodesAre(rest, spec, blocks - 1, b - 1, i);
      LaterSymbol(raw, spec.blockBytes,
                  Total(b - 1, spec.blockBytes) + spec.codeOffset + spec.symbolWidth * i, spec.symbolWidth);
    }
  }

  lemma LaterSymbol(bytes: seq<Byte>, skipped: nat, at: nat, width: nat)
    requires (width == 1 || width == 2) && skipped + at + width <= |bytes|
    ensures SymbolAt(bytes[skipped..], at, width) == SymbolAt(bytes, skipped + at, width)
  {
  }

  lemma NoBlocks(spec: Spec)
    requires ValidSpec(spec)
    ensures Total(0, spec.blockBytes) == Total(0, SymbolCount(spec)) == Total(0, MetadataBytes(spec)) == 0
  {
  }

  /** All other bytes are metadata, in order. */
  lemma {:induction false} MetadataIs(raw: seq<Byte>, spec: Spec, blocks: nat, b: nat, i: nat)
    requires ValidSpec(spec) && |raw| == Total(blocks, spec.blockBytes)
    requires b < blocks && i < MetadataBytes(spec)
    ensures Total(b, spec.blockBytes) + spec.blockBytes <= |raw|
    ensures Total(b, MetadataBytes(spec)) + i < |Metadata(raw, spec, blocks)|
    ensures Metadata(raw, spec, blocks)[Total(b, MetadataBytes(spec)) + i]
            == raw[Total(b, spec.blockBytes) + if i < spec.codeOffset then i else i + spec.codeBytes]
    decreases blocks
  {
    hide Total;
    BlockPlaces(spec, blocks, b);
    TotalStep(blocks, spec);
    if b > 0 {
      MetadataIs(raw[spec.blockBytes..], spec, blocks - 1, b - 1, i);
    }
  }

  lemma BlockRestored(raw: seq<Byte>, spec: Spec)
    requires ValidSpec(spec) && |raw| >= spec.blockBytes
    ensures var end := spec.codeOffset + spec.codeBytes;
            var codes := Symbols(raw[spec.codeOffset..end], spec.symbolWidth);
            && |codes| == SymbolCount(spec) && ValuesFit(codes, spec.symbolWidth)
            && RestoredBlock(codes, raw[..spec.codeOffset] + raw[end..spec.blockBytes], spec)
               == raw[..spec.blockBytes]
  {
    hide Symbols, ValueBytes, ValuesFit;
    var end := spec.codeOffset + spec.codeBytes;
    SymbolsRoundTrip(raw[spec.codeOffset..end], spec.symbolWidth);
    var metadata := raw[..spec.codeOffset] + raw[end..spec.blockBytes];
    assert metadata[..spec.codeOffset] == raw[..spec.codeOffset];
    assert metadata[spec.codeOffset..] == raw[end..spec.blockBytes];
    assert raw[..spec.blockBytes]
           == raw[..spec.codeOffset] + raw[spec.codeOffset..end] + raw[end..spec.blockBytes];
  }

  /** Splitting a payload into codes and metadata and putting it back together changes no byte. */
  lemma {:induction false} SplitRestores(raw: seq<Byte>, spec: Spec, blocks: nat)
    requires ValidSpec(spec) && |raw| == Total(blocks, spec.blockBytes)
    ensures |Codes(raw, spec, blocks)| == Total(blocks, SymbolCount(spec))
    ensures ValuesFit(Codes(raw, spec, blocks), spec.symbolWidth)
    ensures Restore(Codes(raw, spec, blocks), Metadata(raw, spec, blocks), spec, blocks) == raw
    decreases blocks
  {
    hide Symbols, RestoredBlock, ValuesFit, Total;
    if blocks == 0 {
      NoSymbols(spec);
    } else {
      TotalStep(blocks, spec);
      var end := spec.codeOffset + spec.codeBytes;
      var rest := raw[spec.blockBytes..];
      var head := Symbols(raw[spec.codeOffset..end], spec.symbolWidth);
      var others := raw[..spec.codeOffset] + raw[end..spec.blockBytes];
      BlockRestored(raw, spec);
      SplitRestores(rest, spec, blocks - 1);
      var codes, metadata := Codes(raw, spec, blocks), Metadata(raw, spec, blocks);
      assert codes[..|head|] == head && codes[|head|..] == Codes(rest, spec, blocks - 1);
      assert metadata[..|others|] == others;
      assert metadata[|others|..] == Metadata(rest, spec, blocks - 1);
      assert raw == raw[..spec.blockBytes] + rest;
      FitTogether(head, Codes(rest, spec, blocks - 1), spec.symbolWidth);
    }
  }

  lemma NoSymbols(spec: Spec)
    ensures ValuesFit([], spec.symbolWidth)
    ensures forall size :: Total(0, size) == 0
  {
  }

  lemma FitTogether(a: seq<nat>, b: seq<nat>, width: nat)
    requires ValuesFit(a, width) && ValuesFit(b, width)
    ensures ValuesFit(a + b, width)
  {
    hide Power256;
  }

  /** Correcting any prediction of the codes and restoring the payload gives the canonical bytes
      back identically, for every block size up to 65535. */
  lemma ByteIdentical(raw: seq<Byte>, spec: Spec, blocks: nat, prediction: seq<nat>, blockSize: nat)
    requires ValidSpec(spec) && |raw| == Total(blocks, spec.blockBytes)
    requires |prediction| == |Codes(raw, spec, blocks)| && 0 < blockSize <= 65535
    ensures var codes, width := Codes(raw, spec, blocks), spec.symbolWidth;
            && Packable(codes, prediction, width, blockSize)
            && var decoded := Unpack(prediction, Pack(codes, prediction, width, blockSize), 0,
                                     width, blockSize);
            && decoded.Ok? && |decoded.value| == Total(blocks, SymbolCount(spec))
            && Restore(decoded.value, Metadata(raw, spec, blocks), spec, blocks) == raw
  {
    hide Codes, Metadata, Restore, Pack, Unpack, Packable, Total, ValuesFit;
    SplitRestores(raw, spec, blocks);
    var codes := Codes(raw, spec, blocks);
    SmallBlocksPack(codes, prediction, spec.symbolWidth, blockSize);
    ExactCorrection(codes, prediction, spec.symbolWidth, blockSize, []);
    var packed := Pack(codes, prediction, spec.symbolWidth, blockSize);
    assert packed + [] == packed;
  }

  lemma FormatsAreValid()
    ensures ValidSpec(Q2_K) && ValidSpec(IQ2_XS) && ValidSpec(Q3_K) && ValidSpec(IQ3_XXS)
    ensures MetadataBytes(Q2_K) == 20 && MetadataBytes(IQ2_XS) == 10
    ensures MetadataBytes(Q3_K) == 14 && MetadataBytes(IQ3_XXS) == 2
    ensures SymbolCount(Q2_K) == 64 && SymbolCount(IQ2_XS) == 32
    ensures SymbolCount(Q3_K) == SymbolCount(IQ3_XXS) == 96
  {
  }

  // ---------------------------------------------------------------- restoring in place

  /** Three slice assignments per block into a zeroed buffer. */
  method RestorePayload(codes: seq<nat>, metadata: seq<Byte>, spec: Spec, blocks: nat)
      returns (result: array<Byte>)
    requires ValidSpec(spec) && |codes| == Total(blocks, SymbolCount(spec))
    requires |metadata| == Total(blocks, MetadataBytes(spec))
    ensures result[..] == Restore(codes, metadata, spec, blocks)
  {
    hide Restore, ValueBytes, Total;
    RestoreLength(codes, metadata, spec, blocks);
    result := new Byte[Total(blocks, spec.blockBytes)](_ => 0);
    var symbols, copied := codes, metadata;
    var left, base := blocks, 0;
    while left > 0
      invariant 0 <= left <= blocks
      invariant |symbols| == Total(left, SymbolCount(spec))
      invariant |copied| == Total(left, MetadataBytes(spec))
      invariant 0 <= base && base + Total(left, spec.blockBytes) == result.Length
      invariant result[..base] + Restore(symbols, copied, spec, left)
                == Restore(codes, metadata, spec, blocks)
    {
      TotalStep(left, spec);
      RestoreStep(symbols, copied, spec, left);
      ghost var before := result[..base];
      var block, own := symbols[..SymbolCount(spec)], copied[..MetadataBytes(spec)];
      SymbolBytesLength(block, spec.symbolWidth);
      WriteBlock(result, base, block, own, spec);
      symbols, copied := symbols[SymbolCount(spec)..], copied[MetadataBytes(spec)..];
      left := left - 1;
      ghost var written := RestoredBlock(block, own, spec);
      assert result[..base + spec.blockBytes] == before + written;
      assert before + (written + Restore(symbols, copied, spec, left))
             == (before + written) + Restore(symbols, copied, spec, left);
      base := base + spec.blockBytes;
    }
    RestoreDone(symbols, copied, spec, result.Length - base);
    assert result[..base] == result[..];
  }

  method WriteBlock(result: array<Byte>, base: nat, codes: seq<nat>, metadata: seq<Byte>, spec: Spec)
    requires ValidSpec(spec) && |codes| == SymbolCount(spec) && |metadata| == MetadataBytes(spec)
    requires base + spec.blockBytes <= result.Length
    modifies result
    ensures result[..base] == old(result[..base])
    ensures result[base..base + spec.blockBytes] == RestoredBlock(codes, metadata, spec)
  {
    hide ValueBytes;
    SymbolBytesLength(codes, spec.symbolWidth);
    var bytes := ValueBytes(codes, spec.symbolWidth);
    var offset, end := spec.codeOffset, spec.codeOffset + spec.codeBytes;
    forall i | base + offset <= i < base + end {
      result[i] := bytes[i - base - offset];
    }
    forall i | base <= i < base + offset {
      result[i] := metadata[i - base];
    }
    forall i | base + end <= i < base + spec.blockBytes {
      result[i] := metadata[i - base - spec.codeBytes];
    }
    ghost var block := RestoredBlock(codes, metadata, spec);
    forall k | 0 <= k < spec.blockBytes ensures result[base..base + spec.blockBytes][k] == block[k] {
      assert result[base..base + spec.blockBytes][k] == result[base + k];
    }
  }

  lemma TotalStep(blocks: nat, spec: Spec)
    requires ValidSpec(spec) && blocks > 0
    ensures Total(blocks, SymbolCount(spec)) == SymbolCount(spec) + Total(blocks - 1, SymbolCount(spec))
    ensures Total(blocks, MetadataBytes(spec))
            == MetadataBytes(spec) + Total(blocks - 1, MetadataBytes(spec))
    ensures Total(blocks, spec.blockBytes) == spec.blockBytes + Total(blocks - 1, spec.blockBytes)
    ensures Total(blocks - 1, SymbolCount(spec)) >= 0 && Total(blocks - 1, MetadataBytes(spec)) >= 0
  {
    NextMultiple(blocks - 1, SymbolCount(spec));
    NextMultiple(blocks - 1, MetadataBytes(spec));
    NextMultiple(blocks - 1, spec.blockBytes);
  }

  lemma RestoreStep(codes: seq<nat>, metadata: seq<Byte>, spec: Spec, blocks: nat)
    requires ValidSpec(spec) && |codes| == Total(blocks, SymbolCount(spec)) && blocks > 0
    requires |metadata| == Total(blocks, MetadataBytes(spec))
    ensures Total(blocks - 1, SymbolCount(spec)) + SymbolCount(spec) == |codes|
    ensures Total(blocks - 1, MetadataBytes(spec)) + MetadataBytes(spec) == |metadata|
    ensures Restore(codes, metadata, spec, blocks)
            == RestoredBlock(codes[..SymbolCount(spec)], metadata[..MetadataBytes(spec)], spec)
               + Restore(codes[SymbolCount(spec)..], metadata[MetadataBytes(spec)..], spec, blocks - 1)
  {
  }

  lemma {:induction false} RestoreLength(codes: seq<nat>, metadata: seq<Byte>, spec: Spec, blocks: nat)
    requires ValidSpec(spec) && |codes| == Total(blocks, SymbolCount(spec))
    requires |metadata| == Total(blocks, MetadataBytes(spec))
    ensures |Restore(codes, metadata, spec, blocks)| == Total(blocks, spec.blockBytes)
    decreases blocks
  {
    hide RestoredBlock, Total;
    if blocks == 0 {
      NoSymbols(spec);
    } else {
      TotalStep(blocks, spec);
      RestoreLength(codes[SymbolCount(spec)..], metadata[MetadataBytes(spec)..], spec, blocks - 1);
    }
  }

  lemma RestoreDone(codes: seq<nat>, metadata: seq<Byte>, spec: Spec, rest: nat)
    requires ValidSpec(spec) && |codes| == Total(0, SymbolCount(spec))
    requires |metadata| == Total(0, MetadataBytes(spec))
    ensures Restore(codes, metadata, spec, 0) == [] && Total(0, spec.blockBytes) == 0
  {
  }
}
