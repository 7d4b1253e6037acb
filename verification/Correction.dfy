/** Exact correction of a prediction: per block a match bitmap and the exact values wherever the
    prediction is wrong. */
module Correction {
  import opened Bytes
  import opened BitStream
  import opened Common

  datatype Error = CountMismatch | TrailingBytes

  datatype Packed = Packed(bits: nat, exceptionCount: nat, encoded: seq<Byte>)

  function Least(a: nat, b: nat): nat {
    if a <= b then a else b
  }

  // ---------------------------------------------------------------- what is written

  function Matches(target: seq<nat>, prediction: seq<nat>): (m: seq<bool>)
    requires |target| == |prediction|
    ensures |m| == |target|
  {
    seq(|target|, i requires 0 <= i < |target| => target[i] == prediction[i])
  }

  /** The target values that the prediction misses, in order. */
  function Exceptions(target: seq<nat>, prediction: seq<nat>): (e: seq<nat>)
    requires |target| == |prediction|
    ensures |e| <= |target|
  {
    if target == [] then []
    else
      (if target[0] == prediction[0] then [] else [target[0]])
      + Exceptions(target[1..], prediction[1..])
  }

  function ValueBytes(values: seq<nat>, width: nat): seq<Byte> {
    if values == [] then [] else ToLe(width, values[0]) + ValueBytes(values[1..], width)
  }

  function BlockBytes(target: seq<nat>, prediction: seq<nat>, width: nat): seq<Byte>
    requires |target| == |prediction|
  {
    ToLe(2, |Exceptions(target, prediction)|) + PackBits(Matches(target, prediction))
    + ValueBytes(Exceptions(target, prediction), width)
  }

  function Pack(target: seq<nat>, prediction: seq<nat>, width: nat, blockSize: nat): seq<Byte>
    requires |target| == |prediction| && blockSize > 0
    decreases |target|
  {
    if |target| == 0 then []
    else
      var n := Least(blockSize, |target|);
      BlockBytes(target[..n], prediction[..n], width)
      + Pack(target[n..], prediction[n..], width, blockSize)
  }

  predicate ValuesFit(values: seq<nat>, width: nat) {
    forall i :: 0 <= i < |values| ==> values[i] < Power256(width)
  }

  predicate BlockFits(target: seq<nat>, prediction: seq<nat>, width: nat)
    requires |target| == |prediction|
  {
    |Exceptions(target, prediction)| <= 65535 && ValuesFit(Exceptions(target, prediction), width)
  }

  /** Every block has at most 65535 exceptions, each of which fits its field. */
  predicate Packable(target: seq<nat>, prediction: seq<nat>, width: nat, blockSize: nat)
    requires |target| == |prediction| && blockSize > 0
    decreases |target|
  {
    |target| == 0 ||
    (var n := Least(blockSize, |target|);
     BlockFits(target[..n], prediction[..n], width)
     && Packable(target[n..], prediction[n..], width, blockSize))
  }

  // ---------------------------------------------------------------- what is read

  /** A slice that stops at the end of the payload. */
  function Clip(payload: seq<Byte>, from: nat, to: nat): (s: seq<Byte>)
    requires from <= to
    ensures |s| <= to - from
  {
    payload[Least(from, |payload|)..Least(to, |payload|)]
  }

  function Misses(match_: seq<bool>): nat {
    if match_ == [] then 0 else (if match_[0] then 0 else 1) + Misses(match_[1..])
  }

  /** How far the cursor moves over the exact values. */
  function Skip(match_: seq<bool>, width: nat): nat {
    if match_ == [] then 0 else (if match_[0] then 0 else width) + Skip(match_[1..], width)
  }

  /** The prediction with every unmatched value replaced by the next exact one. */
  function Patch(prediction: seq<nat>, match_: seq<bool>, payload: seq<Byte>, cursor: nat,
                 width: nat): (values: seq<nat>)
    requires |match_| <= |prediction|
    ensures |values| == |prediction|
    decreases |match_|
  {
    if match_ == [] then prediction
    else if match_[0] then
      [prediction[0]] + Patch(prediction[1..], match_[1..], payload, cursor, width)
    else
      [FromLe(Clip(payload, cursor, cursor + width))]
      + Patch(prediction[1..], match_[1..], payload, cursor + width, width)
  }

  function ReadMatches(payload: seq<Byte>, cursor: nat, length: nat): (m: seq<bool>)
    ensures |m| <= length
  {
    var bits := UnpackBits(Clip(payload, cursor, cursor + PackedLength(length)));
    bits[..Least(|bits|, length)]
  }

  function BlockMatches(payload: seq<Byte>, cursor: nat, length: nat): (m: seq<bool>)
    ensures |m| <= length
  {
    ReadMatches(payload, cursor + 2, length)
  }

  function ValuesStart(cursor: nat, length: nat): nat {
    cursor + 2 + PackedLength(length)
  }

  function NextCursor(payload: seq<Byte>, cursor: nat, length: nat, width: nat): (next: nat)
    ensures next >= ValuesStart(cursor, length)
  {
    ValuesStart(cursor, length) + Skip(BlockMatches(payload, cursor, length), width)
  }

  function BlockValues(prediction: seq<nat>, payload: seq<Byte>, cursor: nat, width: nat)
      : (values: seq<nat>)
    ensures |values| == |prediction|
  {
    Patch(prediction, BlockMatches(payload, cursor, |prediction|), payload,
          ValuesStart(cursor, |prediction|), width)
  }

  predicate CountAgrees(payload: seq<Byte>, cursor: nat, length: nat) {
    Misses(BlockMatches(payload, cursor, length)) == FromLe(Clip(payload, cursor, cursor + 2))
  }

  function Unpack(prediction: seq<nat>, payload: seq<Byte>, cursor: nat, width: nat,
                  blockSize: nat): Result<seq<nat>, Error>
    requires blockSize > 0
    decreases |prediction|
  {
    if |prediction| == 0 then
      if cursor != |payload| then Err(TrailingBytes) else Ok([])
    else
      var n := Least(blockSize, |prediction|);
      if !CountAgrees(payload, cursor, n) then Err(CountMismatch)
      else
        Prefixed(BlockValues(prediction[..n], payload, cursor, width),
                 Unpack(prediction[n..], payload, NextCursor(payload, cursor, n, width), width,
                        blockSize))
  }

  // ---------------------------------------------------------------- one block round trip

  lemma {:induction false} MissesAreExceptions(target: seq<nat>, prediction: seq<nat>)
    requires |target| == |prediction|
    ensures Misses(Matches(target, prediction)) == |Exceptions(target, prediction)|
  {
    if target != [] {
      MissesAreExceptions(target[1..], prediction[1..]);
      assert Matches(target, prediction)[1..] == Matches(target[1..], prediction[1..]);
    }
  }

  lemma {:induction false} SkipIsLength(target: seq<nat>, prediction: seq<nat>, width: nat)
    requires |target| == |prediction|
    ensures Skip(Matches(target, prediction), width)
            == |ValueBytes(Exceptions(target, prediction), width)|
  {
    hide ToLe;
    if target != [] {
      SkipIsLength(target[1..], prediction[1..], width);
      assert Matches(target, prediction)[1..] == Matches(target[1..], prediction[1..]);
      if target[0] != prediction[0] {
        assert Exceptions(target, prediction)[1..] == Exceptions(target[1..], prediction[1..]);
      } else {
        assert Exceptions(target, prediction) == Exceptions(target[1..], prediction[1..]);
      }
    }
  }

  /** What lies at `cursor`. */
  predicate At(payload: seq<Byte>, cursor: nat, part: seq<Byte>) {
    cursor + |part| <= |payload| && payload[cursor..cursor + |part|] == part
  }

  lemma AtSplits(payload: seq<Byte>, cursor: nat, a: seq<Byte>, b: seq<Byte>)
    requires At(payload, cursor, a + b)
    ensures At(payload, cursor, a) && At(payload, cursor + |a|, b)
  {
    var whole := payload[cursor..cursor + |a + b|];
    assert payload[cursor..cursor + |a|] == whole[..|a|];
    assert payload[cursor + |a|..cursor + |a| + |b|] == whole[|a|..];
  }

  lemma AtClips(payload: seq<Byte>, cursor: nat, part: seq<Byte>)
    requires At(payload, cursor, part)
    ensures Clip(payload, cursor, cursor + |part|) == part
  {
  }

  lemma {:induction false} PatchRestores(target: seq<nat>, prediction: seq<nat>,
                                         payload: seq<Byte>, cursor: nat, width: nat)
    requires |target| == |prediction| && ValuesFit(Exceptions(target, prediction), width)
    requires At(payload, cursor, ValueBytes(Exceptions(target, prediction), width))
    ensures Patch(prediction, Matches(target, prediction), payload, cursor, width) == target
    decreases |target|
  {
    hide ToLe, FromLe, Power256, Clip;
    if target != [] {
      var rest := Exceptions(target[1..], prediction[1..]);
      assert Matches(target, prediction)[1..] == Matches(target[1..], prediction[1..]);
      if target[0] == prediction[0] {
        assert Exceptions(target, prediction) == rest;
        PatchRestores(target[1..], prediction[1..], payload, cursor, width);
      } else {
        var all := Exceptions(target, prediction);
        assert all == [target[0]] + rest && all[1..] == rest;
        assert all[0] < Power256(width);
        TailFits(all, width);
        AtSplits(payload, cursor, ToLe(width, target[0]), ValueBytes(rest, width));
        AtClips(payload, cursor, ToLe(width, target[0]));
        FromTo(width, target[0]);
        PatchRestores(target[1..], prediction[1..], payload, cursor + width, width);
      }
    }
  }

  lemma TailFits(values: seq<nat>, width: nat)
    requires |values| > 0 && ValuesFit(values, width)
    ensures ValuesFit(values[1..], width)
  {
    hide Power256;
  }

  lemma MatchesRead(target: seq<nat>, prediction: seq<nat>, payload: seq<Byte>, cursor: nat)
    requires |target| == |prediction|
    requires At(payload, cursor, PackBits(Matches(target, prediction)))
    ensures ReadMatches(payload, cursor, |target|) == Matches(target, prediction)
    ensures |PackBits(Matches(target, prediction))| == PackedLength(|target|)
  {
    hide PackBits, UnpackBits, Clip;
    var bits := Matches(target, prediction);
    UnpackPack(bits);
    AtClips(payload, cursor, PackBits(bits));
  }

  lemma BlockRestores(target: seq<nat>, prediction: seq<nat>, payload: seq<Byte>, cursor: nat,
                      width: nat)
    requires |target| == |prediction| && BlockFits(target, prediction, width)
    requires At(payload, cursor, BlockBytes(target, prediction, width))
    ensures CountAgrees(payload, cursor, |target|)
    ensures BlockValues(prediction, payload, cursor, width) == target
    ensures NextCursor(payload, cursor, |target|, width)
            == cursor + |BlockBytes(target, prediction, width)|
  {
    hide ToLe, FromLe, Power256, Clip, PackBits, Matches, Exceptions, ValueBytes, Misses, Skip,
      Patch, ReadMatches, At;
    var count := ToLe(2, |Exceptions(target, prediction)|);
    var bitmap := PackBits(Matches(target, prediction));
    var values := ValueBytes(Exceptions(target, prediction), width);
    assert BlockBytes(target, prediction, width) == count + (bitmap + values);
    AtSplits(payload, cursor, count, bitmap + values);
    AtSplits(payload, cursor + 2, bitmap, values);
    AtClips(payload, cursor, count);
    FieldSizes();
    FromTo(2, |Exceptions(target, prediction)|);
    MatchesRead(target, prediction, payload, cursor + 2);
    MissesAreExceptions(target, prediction);
    SkipIsLength(target, prediction, width);
    PatchRestores(target, prediction, payload, cursor + 2 + |bitmap|, width);
  }

  // ---------------------------------------------------------------- the whole stream

  /** Decoding the stream of a packable target returns the target and consumes the whole stream:
      one more byte is reported as trailing. */
  lemma {:induction false} ExactFrom(target: seq<nat>, prediction: seq<nat>, width: nat,
                                     blockSize: nat, payload: seq<Byte>, cursor: nat)
    requires |target| == |prediction| && blockSize > 0
    requires Packable(target, prediction, width, blockSize)
    requires At(payload, cursor, Pack(target, prediction, width, blockSize))
    ensures Unpack(prediction, payload, cursor, width, blockSize)
            == if cursor + |Pack(target, prediction, width, blockSize)| == |payload| then Ok(target)
               else Err(TrailingBytes)
    decreases |target|
  {
    hide BlockBytes, BlockFits, BlockValues, CountAgrees, NextCursor, At;
    if |target| > 0 {
      var n := Least(blockSize, |target|);
      var head := BlockBytes(target[..n], prediction[..n], width);
      var tail := Pack(target[n..], prediction[n..], width, blockSize);
      AtSplits(payload, cursor, head, tail);
      BlockRestores(target[..n], prediction[..n], payload, cursor, width);
      ExactFrom(target[n..], prediction[n..], width, blockSize, payload, cursor + |head|);
      assert target == target[..n] + target[n..];
    }
  }

  lemma ExactCorrection(target: seq<nat>, prediction: seq<nat>, width: nat, blockSize: nat,
                        extra: seq<Byte>)
    requires |target| == |prediction| && blockSize > 0
    requires Packable(target, prediction, width, blockSize)
    ensures Unpack(prediction, Pack(target, prediction, width, blockSize) + extra, 0, width, blockSize)
            == if extra == [] then Ok(target) else Err(TrailingBytes)
  {
    hide Pack, Unpack, Packable;
    var packed := Pack(target, prediction, width, blockSize);
    assert At(packed + extra, 0, packed);
    ExactFrom(target, prediction, width, blockSize, packed + extra, 0);
  }

  /** With blocks of at most 65535 values and values inside their width, nothing can fail to pack. */
  lemma {:induction false} SmallBlocksPack(target: seq<nat>, prediction: seq<nat>, width: nat,
                                           blockSize: nat)
    requires |target| == |prediction| && 0 < blockSize <= 65535 && ValuesFit(target, width)
    ensures Packable(target, prediction, width, blockSize)
    decreases |target|
  {
    hide Exceptions, Power256;
    if |target| > 0 {
      var n := Least(blockSize, |target|);
      ExceptionsFit(target[..n], prediction[..n], width);
      SmallBlocksPack(target[n..], prediction[n..], width, blockSize);
    }
  }

  lemma {:induction false} ExceptionsFit(target: seq<nat>, prediction: seq<nat>, width: nat)
    requires |target| == |prediction| && ValuesFit(target, width)
    ensures ValuesFit(Exceptions(target, prediction), width)
  {
    hide Power256;
    if target != [] {
      ExceptionsFit(target[1..], prediction[1..], width);
    }
  }

  // ---------------------------------------------------------------- accepted streams

  lemma {:induction false} AcceptedEnds(prediction: seq<nat>, payload: seq<Byte>, cursor: nat,
                                        width: nat, blockSize: nat)
    requires blockSize > 0 && Unpack(prediction, payload, cursor, width, blockSize).Ok?
    ensures cursor <= |payload|
    decreases |prediction|
  {
    hide CountAgrees, BlockValues, BlockMatches, Skip;
    if |prediction| > 0 {
      var n := Least(blockSize, |prediction|);
      AcceptedEnds(prediction[n..], payload, NextCursor(payload, cursor, n, width), width, blockSize);
    }
  }

  lemma ClipExtends(payload: seq<Byte>, extra: seq<Byte>, from: nat, to: nat)
    requires from <= to <= |payload|
    ensures Clip(payload + extra, from, to) == Clip(payload, from, to)
  {
  }

  lemma {:induction false} PatchExtends(prediction: seq<nat>, match_: seq<bool>,
                                        payload: seq<Byte>, extra: seq<Byte>, cursor: nat, width: nat)
    requires |match_| <= |prediction| && cursor + Skip(match_, width) <= |payload|
    ensures Patch(prediction, match_, payload + extra, cursor, width)
            == Patch(prediction, match_, payload, cursor, width)
    decreases |match_|
  {
    hide Clip;
    if match_ != [] {
      if match_[0] {
        PatchExtends(prediction[1..], match_[1..], payload, extra, cursor, width);
      } else {
        ClipExtends(payload, extra, cursor, cursor + width);
        PatchExtends(prediction[1..], match_[1..], payload, extra, cursor + width, width);
      }
    }
  }

  lemma BlockExtends(prediction: seq<nat>, payload: seq<Byte>, extra: seq<Byte>, cursor: nat,
                     width: nat)
    requires NextCursor(payload, cursor, |prediction|, width) <= |payload|
    ensures CountAgrees(payload + extra, cursor, |prediction|)
            == CountAgrees(payload, cursor, |prediction|)
    ensures NextCursor(payload + extra, cursor, |prediction|, width)
            == NextCursor(payload, cursor, |prediction|, width)
    ensures BlockValues(prediction, payload + extra, cursor, width)
            == BlockValues(prediction, payload, cursor, width)
  {
    hide Clip, UnpackBits, FromLe, Misses, Skip, Patch;
    var n := |prediction|;
    ClipExtends(payload, extra, cursor, cursor + 2);
    ClipExtends(payload, extra, cursor + 2, cursor + 2 + PackedLength(n));
    PatchExtends(prediction, BlockMatches(payload, cursor, n), payload, extra,
                 ValuesStart(cursor, n), width);
  }

  lemma {:induction false} ExtensionTrails(prediction: seq<nat>, payload: seq<Byte>,
                                           extra: seq<Byte>, cursor: nat, width: nat, blockSize: nat)
    requires blockSize > 0 && extra != []
    requires Unpack(prediction, payload, cursor, width, blockSize).Ok?
    ensures Unpack(prediction, payload + extra, cursor, width, blockSize) == Err(TrailingBytes)
    decreases |prediction|
  {
    hide CountAgrees, BlockValues, BlockMatches, Skip;
    if |prediction| > 0 {
      var n := Least(blockSize, |prediction|);
      var next := NextCursor(payload, cursor, n, width);
      AcceptedEnds(prediction[n..], payload, next, width, blockSize);
      BlockExtends(prediction[..n], payload, extra, cursor, width);
      ExtensionTrails(prediction[n..], payload, extra, next, width, blockSize);
    }
  }

  /** No accepted stream is a proper prefix of another: a stream cut short or lengthened is
      rejected. */
  lemma AcceptedPrefixFree(prediction: seq<nat>, shorter: seq<Byte>, longer: seq<Byte>, width: nat,
                           blockSize: nat)
    requires blockSize > 0 && shorter <= longer
    requires Unpack(prediction, shorter, 0, width, blockSize).Ok?
    requires Unpack(prediction, longer, 0, width, blockSize).Ok?
    ensures shorter == longer
  {
    hide Unpack;
    var extra := longer[|shorter|..];
    assert longer == shorter + extra;
    if extra != [] {
      ExtensionTrails(prediction, shorter, extra, 0, width, blockSize);
    }
  }

  // ---------------------------------------------------------------- the packing loop

  function Width(symbolBits: nat): nat {
    (symbolBits + 7) / 8
  }

  /** Just enough bytes for a symbol. */
  lemma WidthLeast(symbolBits: nat)
    ensures 8 * Width(symbolBits) - 8 < symbolBits <= 8 * Width(symbolBits)
  {
  }

  lemma PackStep(target: seq<nat>, prediction: seq<nat>, width: nat, blockSize: nat, start: nat)
    requires |target| == |prediction| && blockSize > 0 && start < |target|
    ensures var end := Least(start + blockSize, |target|);
            && Packable(target[start..], prediction[start..], width, blockSize)
               == (BlockFits(target[start..end], prediction[start..end], width)
                   && Packable(target[end..], prediction[end..], width, blockSize))
            && Pack(target[start..], prediction[start..], width, blockSize)
               == BlockBytes(target[start..end], prediction[start..end], width)
                  + Pack(target[end..], prediction[end..], width, blockSize)
  {
    hide BlockFits, BlockBytes;
    var end := Least(start + blockSize, |target|);
    var t, p := target[start..], prediction[start..];
    assert t[..end - start] == target[start..end] && p[..end - start] == prediction[start..end];
    assert t[end - start..] == target[end..] && p[end - start..] == prediction[end..];
  }

  lemma {:induction false} ExceptionsAppend(t: seq<nat>, p: seq<nat>, n: nat)
    requires |t| == |p| && n <= |t|
    ensures Exceptions(t, p) == Exceptions(t[..n], p[..n]) + Exceptions(t[n..], p[n..])
    decreases n
  {
    hide *;
    if n == 0 {
      assert t[0..] == t && p[0..] == p;
      NoExceptions(t[..n], p[..n]);
    } else {
      ExceptionsAppend(t[1..], p[1..], n - 1);
      FirstException(t, p);
      FirstException(t[..n], p[..n]);
      assert t[..n][1..] == t[1..][..n - 1] && p[..n][1..] == p[1..][..n - 1];
      assert t[1..][n - 1..] == t[n..] && p[1..][n - 1..] == p[n..];
    }
  }

  lemma NoExceptions(t: seq<nat>, p: seq<nat>)
    requires |t| == |p| == 0
    ensures Exceptions(t, p) == []
  {
  }

  lemma FirstException(t: seq<nat>, p: seq<nat>)
    requires |t| == |p| > 0
    ensures Exceptions(t, p) == (if t[0] == p[0] then [] else [t[0]]) + Exceptions(t[1..], p[1..])
  {
  }

  /** The positions among the first `n` at which the prediction is wrong. */
  function Wrong(t: seq<nat>, p: seq<nat>, n: nat): set<nat>
    requires n <= |t| == |p|
  {
    set i | 0 <= i < n && t[i] != p[i]
  }

  lemma WrongLast(t: seq<nat>, p: seq<nat>, n: nat)
    requires 0 < n <= |t| == |p|
    ensures |Wrong(t, p, n)| == |Wrong(t, p, n - 1)| + if t[n - 1] != p[n - 1] then 1 else 0
  {
    assert Wrong(t, p, n) == Wrong(t, p, n - 1) + if t[n - 1] != p[n - 1] then {n - 1} else {};
  }

  lemma {:induction false} WrongIn(t: seq<nat>, p: seq<nat>, i: nat, n: nat)
    requires i <= n <= |t| == |p|
    ensures |Wrong(t, p, i)| <= |Wrong(t, p, n)|
    ensures i < n && t[i] != p[i] ==> |Wrong(t, p, i)| < |Wrong(t, p, n)|
    decreases n
  {
    hide Wrong;
    if i < n {
      WrongLast(t, p, n);
      WrongIn(t, p, i, n - 1);
    }
  }

  /** The exceptions are the target values at the wrong positions, in order. */
  lemma {:induction false} ExceptionsExactly(t: seq<nat>, p: seq<nat>, n: nat, i: nat)
    requires i < n <= |t| == |p| && t[i] != p[i]
    ensures |Exceptions(t[..n], p[..n])| == |Wrong(t, p, n)|
    ensures |Wrong(t, p, i)| < |Wrong(t, p, n)|
    ensures Exceptions(t[..n], p[..n])[|Wrong(t, p, i)|] == t[i]
    decreases n
  {
    hide Exceptions, Wrong;
    WrongIn(t, p, i, n);
    ExceptionCount(t, p, n);
    LastException(t, p, n);
    ExceptionCount(t, p, n - 1);
    if i < n - 1 {
      ExceptionsExactly(t, p, n - 1, i);
    }
  }

  lemma {:induction false} ExceptionCount(t: seq<nat>, p: seq<nat>, n: nat)
    requires n <= |t| == |p|
    ensures |Exceptions(t[..n], p[..n])| == |Wrong(t, p, n)|
  {
    hide Exceptions;
    if n == 0 {
      NoExceptions(t[..0], p[..0]);
      assert Wrong(t, p, 0) == {};
    } else {
      ExceptionCount(t, p, n - 1);
      LastException(t, p, n);
      WrongLast(t, p, n);
    }
  }

  lemma LastException(t: seq<nat>, p: seq<nat>, n: nat)
    requires 0 < n <= |t| == |p|
    ensures Exceptions(t[..n], p[..n])
            == Exceptions(t[..n - 1], p[..n - 1]) + if t[n - 1] == p[n - 1] then [] else [t[n - 1]]
  {
    hide Exceptions;
    var a, b := t[..n], p[..n];
    ExceptionsAppend(a, b, n - 1);
    assert a[..n - 1] == t[..n - 1] && b[..n - 1] == p[..n - 1];
    FirstException(a[n - 1..], b[n - 1..]);
    NoExceptions(a[n - 1..][1..], b[n - 1..][1..]);
  }

  /** A block byte by byte: the number of wrong values in two bytes, a bit for every value that says
      whether the prediction is right, and the right values of the wrong ones. */
  lemma BlockLayout(t: seq<nat>, p: seq<nat>, width: nat)
    requires |t| == |p| && |Wrong(t, p, |t|)| <= 65535
    ensures var bytes, k := BlockBytes(t, p, width), PackedLength(|t|);
            && |bytes| >= 2 + k && FromLe(bytes[..2]) == |Wrong(t, p, |t|)|
            && (forall i :: 0 <= i < |t| ==>
                  i / 8 < k && (t[i] == p[i] <==> BitOf(bytes[2..2 + k][i / 8], i % 8) == 1))
            && bytes[2 + k..] == ValueBytes(Exceptions(t, p), width)
  {
    hide ToLe, FromLe, PackBits, Exceptions, Matches, ValueBytes, Wrong, BitOf, Power256, PackedLength;
    var count, bitmap := ToLe(2, |Exceptions(t, p)|), PackBits(Matches(t, p));
    var bytes := BlockBytes(t, p, width);
    assert t[..|t|] == t && p[..|p|] == p;
    ExceptionCount(t, p, |t|);
    FieldSizes();
    FromTo(2, |Exceptions(t, p)|);
    PackBitsLength(Matches(t, p));
    assert bytes == count + (bitmap + ValueBytes(Exceptions(t, p), width));
    assert bytes[..2] == count && bytes[2..2 + |bitmap|] == bitmap;
    forall i | 0 <= i < |t|
      ensures i / 8 < |bitmap| && (t[i] == p[i] <==> BitOf(bitmap[i / 8], i % 8) == 1)
    {
      PackedBit(Matches(t, p), i);
      MatchIs(t, p, i);
    }
  }

  lemma MatchIs(t: seq<nat>, p: seq<nat>, i: nat)
    requires i < |t| == |p|
    ensures Matches(t, p)[i] <==> t[i] == p[i]
  {
  }

  lemma ExceptionsStep(target: seq<nat>, prediction: seq<nat>, start: nat, end: nat)
    requires |target| == |prediction| && start <= end <= |target|
    ensures |Exceptions(target[start..], prediction[start..])|
            == |Exceptions(target[start..end], prediction[start..end])|
               + |Exceptions(target[end..], prediction[end..])|
  {
    hide Exceptions;
    var t, p := target[start..], prediction[start..];
    ExceptionsAppend(t, p, end - start);
    assert t[..end - start] == target[start..end] && p[..end - start] == prediction[start..end];
    assert t[end - start..] == target[end..] && p[end - start..] == prediction[end..];
  }

  /** Appends the exact values; fails on the first that does not fit its field. */
  method AppendValues(encoded: seq<Byte>, values: seq<nat>, width: nat)
      returns (r: Option<seq<Byte>>)
    ensures r.Some? <==> ValuesFit(values, width)
    ensures r.Some? ==> r.value == encoded + ValueBytes(values, width)
  {
    hide ToLe, Power256;
    var bytes := encoded;
    assert values[0..] == values;
    var i := 0;
    while i < |values|
      invariant 0 <= i <= |values|
      invariant forall j :: 0 <= j < i ==> values[j] < Power256(width)
      invariant bytes + ValueBytes(values[i..], width) == encoded + ValueBytes(values, width)
    {
      if values[i] >= Power256(width) {
        return None;
      }
      assert values[i..][1..] == values[i + 1..];
      assert bytes + ValueBytes(values[i..], width)
             == (bytes + ToLe(width, values[i])) + ValueBytes(values[i + 1..], width);
      bytes := bytes + ToLe(width, values[i]);
      i := i + 1;
    }
    assert bytes + ValueBytes(values[i..], width) == bytes;
    return Some(bytes);
  }

  /** Packs block after block; fails exactly on a block with more than 65535 exceptions or with an
      exception too large for its field. */
  method PackMatchExceptions(target: seq<nat>, prediction: seq<nat>, symbolBits: nat, blockSize: nat)
      returns (r: Option<Packed>)
    requires |target| == |prediction| && blockSize > 0
    ensures r.Some? <==> Packable(target, prediction, Width(symbolBits), blockSize)
    ensures r.Some? ==>
      && r.value.encoded == Pack(target, prediction, Width(symbolBits), blockSize)
      && r.value.exceptionCount == |Wrong(target, prediction, |target|)|
      && r.value.bits == 8 * |r.value.encoded|
  {
    hide Pack, Packable, Exceptions, Matches, PackBits, ToLe, ValuesFit, ValueBytes, Wrong;
    var width := Width(symbolBits);
    var encoded: seq<Byte> := [];
    var exceptionCount := 0;
    var start := 0;
    assert target[0..] == target && prediction[0..] == prediction;
    while start < |target|
      invariant 0 <= start <= |target|
      invariant Packable(target[start..], prediction[start..], width, blockSize)
                == Packable(target, prediction, width, blockSize)
      invariant encoded + Pack(target[start..], prediction[start..], width, blockSize)
                == Pack(target, prediction, width, blockSize)
      invariant exceptionCount + |Exceptions(target[start..], prediction[start..])|
                == |Exceptions(target, prediction)|
    {
      var end := Least(start + blockSize, |target|);
      PackStep(target, prediction, width, blockSize, start);
      ExceptionsStep(target, prediction, start, end);
      var blockTarget, blockPrediction := target[start..end], prediction[start..end];
      var exceptions := Exceptions(blockTarget, blockPrediction);
      if |exceptions| > 65535 {
        return None;
      }
      var bitmap := PackBits(Matches(blockTarget, blockPrediction));
      var appended := AppendValues(encoded + ToLe(2, |exceptions|) + bitmap, exceptions, width);
      if appended.None? {
        return None;
      }
      ghost var rest := Pack(target[end..], prediction[end..], width, blockSize);
      assert encoded + (BlockBytes(blockTarget, blockPrediction, width) + rest)
             == appended.value + rest;
      encoded := appended.value;
      exceptionCount := exceptionCount + |exceptions|;
      start := end;
    }
    NothingLeft(target[start..], prediction[start..], width, blockSize);
    ExceptionCount(target, prediction, |target|);
    assert target[..|target|] == target && prediction[..|target|] == prediction;
    assert encoded + [] == encoded;
    return Some(Packed(8 * |encoded|, exceptionCount, encoded));
  }

  lemma NothingLeft(target: seq<nat>, prediction: seq<nat>, width: nat, blockSize: nat)
    requires |target| == |prediction| == 0 && blockSize > 0
    ensures Packable(target, prediction, width, blockSize)
    ensures Pack(target, prediction, width, blockSize) == [] && Exceptions(target, prediction) == []
  {
  }
}
