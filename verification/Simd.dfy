/**
 The vector generators: eight lanes at a time, one segment at a time or four segments at a
 time with a one-segment tail. The buffer has one row per segment and holds what the code
 stores: the signed top half of each state over 2^15, times the scale of the segment.
 */
module Simd {
  import opened Common
  import opened Words
  import opened Mutation
  import opened TopHalves

  datatype Shape = Shape(family: Family, rounds: nat)
  {
    predicate Valid() { rounds <= 4 }
  }

  /** A state as a number in [-1, 1): its signed top half over 2^15. */
  function MapInteger(state: U32): real {
    Top(state) as real / 32768.0
  }

  /** What is stored for one lane of a segment. */
  function Stored(shape: Shape, seed: U32, ordinal: U32, lane: nat, scale: real): real
    requires shape.Valid()
  {
    Mul(MapInteger(State(shape.family, shape.rounds, seed, ordinal, lane, true)), scale)
  }

  /** Eight neighbouring lanes of one segment, before scaling. */
  function Raw8(shape: Shape, seed: U32, ordinal: U32, laneBase: nat): (r: seq<real>)
    requires shape.Valid()
    ensures |r| == 8
  {
    seq(8, i requires 0 <= i < 8 =>
      MapInteger(State(shape.family, shape.rounds, seed, ordinal, laneBase + i, true)))
  }

  function Scaled(raw: seq<real>, scale: real): (r: seq<real>)
    ensures |r| == |raw|
  {
    seq(|raw|, i requires 0 <= i < |raw| => Mul(raw[i], scale))
  }

  /** Lanes below `lanes` of a row hold what is stored for `seed` at `ordinal`. */
  ghost predicate RowHolds(output: array2<real>, row: nat, lanes: nat, shape: Shape, seed: U32,
                           ordinal: U32, scale: real)
    requires shape.Valid() && row < output.Length0 && lanes <= output.Length1
    reads output
  {
    forall l :: 0 <= l < lanes ==> output[row, l] == Stored(shape, seed, ordinal, l, scale)
  }

  method Store8(output: array2<real>, row: nat, lane: nat, raw: seq<real>)
    requires |raw| == 8 && row < output.Length0 && lane + 8 <= output.Length1
    modifies output
    ensures forall l :: lane <= l < lane + 8 ==> output[row, l] == raw[l - lane]
    ensures forall r, l :: 0 <= r < output.Length0 && 0 <= l < output.Length1 && !(r == row && lane <= l < lane + 8)
              ==> output[r, l] == old(output[r, l])
  {
    for i := 0 to 8
      invariant forall l :: lane <= l < lane + i ==> output[row, l] == raw[l - lane]
      invariant forall r, l :: 0 <= r < output.Length0 && 0 <= l < output.Length1 && !(r == row && lane <= l < lane + i)
                  ==> output[r, l] == old(output[r, l])
    {
      output[row, lane + i] := raw[i];
    }
  }

  /** One more vector of a row. */
  method EmitLanes(output: array2<real>, row: nat, lane: nat, shape: Shape, seed: U32,
                   ordinal: U32, scale: real)
    requires shape.Valid() && row < output.Length0 && lane + 8 <= output.Length1
    requires RowHolds(output, row, lane, shape, seed, ordinal, scale)
    modifies output
    ensures RowHolds(output, row, lane + 8, shape, seed, ordinal, scale)
    ensures forall r, l :: 0 <= r < output.Length0 && 0 <= l < output.Length1 && r != row
              ==> output[r, l] == old(output[r, l])
  {
    hide State, Mul, MapInteger;
    var stored := Scaled(Raw8(shape, seed, ordinal, lane), scale);
    Store8(output, row, lane, stored);
    forall l | 0 <= l < lane + 8
      ensures output[row, l] == Stored(shape, seed, ordinal, l, scale)
    {
      if l >= lane {
        assert stored[l - lane] == Stored(shape, seed, ordinal, lane + (l - lane), scale);
      }
    }
  }

  /** The lane loop for one segment. */
  method EmitSegment(output: array2<real>, row: nat, length: nat, shape: Shape, seed: U32,
                     ordinal: U32, scale: real)
    requires shape.Valid() && length % 8 == 0 && length == output.Length1 && row < output.Length0
    modifies output
    ensures RowHolds(output, row, length, shape, seed, ordinal, scale)
    ensures forall r, l :: 0 <= r < output.Length0 && 0 <= l < length && r != row
              ==> output[r, l] == old(output[r, l])
  {
    hide Stored;
    var lane := 0;
    while lane < length
      invariant lane % 8 == 0 && lane <= length
      invariant RowHolds(output, row, lane, shape, seed, ordinal, scale)
      invariant forall r, l :: 0 <= r < output.Length0 && 0 <= l < length && r != row
                  ==> output[r, l] == old(output[r, l])
      decreases length - lane
    {
      EmitLanes(output, row, lane, shape, seed, ordinal, scale);
      lane := lane + 8;
    }
  }

  /** Segments one at a time, into the rows from `outAt`; ordinals count from zero. */
  method GenerateBasic(shape: Shape, seeds: seq<U32>, scales: seq<real>, seedAt: nat,
                       segments: nat, length: nat, output: array2<real>, outAt: nat)
    requires shape.Valid() && length % 8 == 0 && length == output.Length1
    requires seedAt + segments <= |seeds| && seedAt + segments <= |scales|
    requires outAt + segments <= output.Length0
    modifies output
    ensures forall s :: 0 <= s < segments ==>
              RowHolds(output, outAt + s, length, shape, seeds[seedAt + s], W(s),
                       scales[seedAt + s])
    ensures forall r, l :: 0 <= r < outAt && 0 <= l < length ==> output[r, l] == old(output[r, l])
  {
    hide W, Stored;
    for segment := 0 to segments
      invariant forall s :: 0 <= s < segment ==>
                  RowHolds(output, outAt + s, length, shape, seeds[seedAt + s], W(s),
                       scales[seedAt + s])
      invariant forall r, l :: 0 <= r < outAt && 0 <= l < length ==> output[r, l] == old(output[r, l])
    {
      EmitSegment(output, outAt + segment, length, shape, seeds[seedAt + segment], W(segment),
                  scales[seedAt + segment]);
    }
  }

  /** The first segment of the one-segment tail. */
  function TailStart(segments: nat): nat {
    segments / 4 * 4
  }

  /** The ordinal the four-segment generator uses: its tail counts from zero again. */
  function UnrolledOrdinal(segments: nat, segment: nat): U32 {
    if segment < TailStart(segments) then W(segment) else W(segment - TailStart(segments))
  }

  /** Four segments at a time, then the tail through the one-segment generator. */
  method GenerateUnrolled4(shape: Shape, seeds: seq<U32>, scales: seq<real>, segments: nat,
                           length: nat, output: array2<real>)
    requires shape.Valid() && length % 8 == 0 && length == output.Length1
    requires segments <= |seeds| && segments <= |scales| && segments <= output.Length0
    modifies output
    ensures forall s :: 0 <= s < segments ==>
              RowHolds(output, s, length, shape, seeds[s], UnrolledOrdinal(segments, s), scales[s])
  {
    hide W, Stored;
    var segment := 0;
    while segment + 3 < segments
      invariant segment % 4 == 0 && segment <= segments
      invariant forall s :: 0 <= s < segment ==> RowHolds(output, s, length, shape, seeds[s], W(s), scales[s])
      decreases segments - segment
    {
      EmitFour(shape, seeds, scales, segment, length, output);
      segment := segment + 4;
    }
    assert segment == TailStart(segments);
    if segment < segments {
      GenerateBasic(shape, seeds, scales, segment, segments - segment, length, output, segment);
      forall s | segment <= s < segments
        ensures RowHolds(output, s, length, shape, seeds[s], W(s - segment), scales[s])
      {
        assert RowHolds(output, segment + (s - segment), length, shape, seeds[segment + (s - segment)],
                        W(s - segment), scales[segment + (s - segment)]);
      }
    }
  }

  /** The lane loop of the unrolled body. */
  method EmitFour(shape: Shape, seeds: seq<U32>, scales: seq<real>, segment: nat, length: nat,
                  output: array2<real>)
    requires shape.Valid() && length % 8 == 0 && length == output.Length1
    requires segment + 4 <= |seeds| && segment + 4 <= |scales| && segment + 4 <= output.Length0
    modifies output
    ensures forall s :: segment <= s < segment + 4 ==> RowHolds(output, s, length, shape, seeds[s], W(s), scales[s])
    ensures forall r, l :: 0 <= r < segment && 0 <= l < length ==> output[r, l] == old(output[r, l])
  {
    hide W, Stored;
    var lane := 0;
    while lane < length
      invariant lane % 8 == 0 && lane <= length
      invariant forall s :: segment <= s < segment + 4 ==> RowHolds(output, s, lane, shape, seeds[s], W(s), scales[s])
      invariant forall r, l :: 0 <= r < segment && 0 <= l < length ==> output[r, l] == old(output[r, l])
      decreases length - lane
    {
      EmitLanes(output, segment, lane, shape, seeds[segment], W(segment),
                scales[segment]);
      EmitLanes(output, segment + 1, lane, shape, seeds[segment + 1], W(segment + 1),
                scales[segment + 1]);
      EmitLanes(output, segment + 2, lane, shape, seeds[segment + 2], W(segment + 2),
                scales[segment + 2]);
      EmitLanes(output, segment + 3, lane, shape, seeds[segment + 3], W(segment + 3),
                scales[segment + 3]);
      lane := lane + 8;
    }
  }

  // ---------------------------------------------------------------- when the two agree

  /** The two generators store the same values, in every segment and lane. */
  ghost predicate SameOutput(shape: Shape, seeds: seq<U32>, scales: seq<real>, length: nat)
    requires shape.Valid() && |scales| == |seeds|
  {
    forall s, l :: 0 <= s < |seeds| && 0 <= l < length ==>
      Stored(shape, seeds[s], W(s), l, scales[s])
      == Stored(shape, seeds[s], UnrolledOrdinal(|seeds|, s), l, scales[s])
  }

  ghost predicate AlwaysSameOutput(shape: Shape, segments: nat, length: nat)
    requires shape.Valid()
  {
    forall seeds: seq<U32>, scales: seq<real> ::
      |seeds| == segments && |scales| == segments ==> SameOutput(shape, seeds, scales, length)
  }

  lemma OrdinalsAgree(segments: nat)
    requires segments % 4 == 0 || W(TailStart(segments)) == 0
    ensures forall s :: 0 <= s < segments ==> W(s) == UnrolledOrdinal(segments, s)
  {
    var tail := TailStart(segments);
    forall s | 0 <= s < segments ensures W(s) == UnrolledOrdinal(segments, s) {
      if s >= tail {
        var k := Quotient(tail);
        Shifted(s - tail, k);
      }
    }
  }

  /** Seeds that combine with the first tail ordinal to a given root. */
  lemma SeedForRoot(ordinal: U32, root: U32) returns (seed: U32)
    ensures W(seed + PositionKey(ordinal, true)) == root
    ensures W(seed + PositionKey(0, true))
            == W(root + W(PositionKey(0, true) - PositionKey(ordinal, true)))
  {
    hide PositionKey;
    var p, q := PositionKey(ordinal, true), PositionKey(0, true);
    seed := W(root - p);
    WordShift(root, p, q);
  }

  lemma WordShift(root: U32, p: U32, q: U32)
    ensures W(W(root - p) + p) == root && W(W(root - p) + q) == W(root + W(q - p))
  {
    hide W;
    AddWrap(root - p, p);
    AddWrap(root - p, q);
    AddWrap(q - p, root);
    WordId(root);
  }

  /** Two ordinals whose stored values agree for a seed, at scale 1, have equal top halves there. */
  lemma StoredTops(shape: Shape, seed: U32, ordinal: U32, root: U32, next: U32)
    requires shape.Valid()
    requires Stored(shape, seed, ordinal, 0, 1.0) == Stored(shape, seed, 0, 0, 1.0)
    requires W(seed + PositionKey(ordinal, true)) == root && W(seed + PositionKey(0, true)) == next
    ensures Top(FromRoot(shape.family, shape.rounds, 0, root))
            == Top(FromRoot(shape.family, shape.rounds, 0, next))
  {
    hide FromRoot, Top, PositionKey, W, MapInteger;
    SameTops(FromRoot(shape.family, shape.rounds, 0, root),
             FromRoot(shape.family, shape.rounds, 0, next));
  }

  lemma BlindAt(shape: Shape, segments: nat, length: nat, root: U32)
    requires shape.Valid() && length > 0 && segments % 4 != 0
    requires AlwaysSameOutput(shape, segments, length)
    ensures var d := W(PositionKey(0, true) - PositionKey(W(TailStart(segments)), true));
            Top(FromRoot(shape.family, shape.rounds, 0, root))
            == Top(FromRoot(shape.family, shape.rounds, 0, W(root + d)))
  {
    hide FromRoot, Top, PositionKey, TailStart, Stored, W, UnrolledOrdinal;
    var tail := TailStart(segments);
    TailInside(segments);
    var d := W(PositionKey(0, true) - PositionKey(W(tail), true));
    var seed := SeedForRoot(W(tail), root);
    var seeds, scales := seq<U32>(segments, _ => seed), seq(segments, _ => 1.0);
    assert SameOutput(shape, seeds, scales, length);
    assert Stored(shape, seeds[tail], W(tail), 0, scales[tail])
           == Stored(shape, seeds[tail], UnrolledOrdinal(|seeds|, tail), 0, scales[tail]);
    StoredTops(shape, seed, W(tail), root, W(root + d));
  }

  /** If the outputs agree for all seeds and scales, the tail's shift of the root is blind. */
  lemma AgreementIsBlind(shape: Shape, segments: nat, length: nat)
    requires shape.Valid() && length > 0 && segments % 4 != 0
    requires AlwaysSameOutput(shape, segments, length)
    ensures Blind(shape.family, shape.rounds,
                  W(PositionKey(0, true) - PositionKey(W(TailStart(segments)), true)))
  {
    hide FromRoot, Top, PositionKey, TailStart, W, AlwaysSameOutput;
    var d := W(PositionKey(0, true) - PositionKey(W(TailStart(segments)), true));
    forall root: U32
      ensures Top(FromRoot(shape.family, shape.rounds, 0, root))
              == Top(FromRoot(shape.family, shape.rounds, 0, W(root + d)))
    {
      BlindAt(shape, segments, length, root);
    }
  }

  lemma TailInside(segments: nat)
    requires segments % 4 != 0
    ensures TailStart(segments) < segments && UnrolledOrdinal(segments, TailStart(segments)) == 0
  {
  }

  lemma SameTops(a: U32, b: U32)
    requires Mul(MapInteger(a), 1.0) == Mul(MapInteger(b), 1.0)
    ensures Top(a) == Top(b)
  {
    hide Top;
  }

  /** The generators store the same values for all seeds and scales exactly when there is no tail,
      or its first ordinal is a multiple of 2^32 (as it is below four segments). */
  lemma UnrolledAgreesExactly(shape: Shape, segments: nat, length: nat)
    requires shape.Valid() && length > 0
    ensures AlwaysSameOutput(shape, segments, length)
       <==> segments % 4 == 0 || W(TailStart(segments)) == 0
  {
    hide Stored, TailStart, PositionKey, Blind, W;
    if segments % 4 == 0 || W(TailStart(segments)) == 0 {
      OrdinalsAgree(segments);
    } else if AlwaysSameOutput(shape, segments, length) {
      AgreementIsBlind(shape, segments, length);
      var o := W(TailStart(segments));
      DistanceIsNotZero(o);
      NothingIsBlind(shape.family, shape.rounds,
                     W(PositionKey(0, true) - PositionKey(o, true)));
    }
  }

  lemma DistanceIsNotZero(o: U32)
    requires o != 0
    ensures W(PositionKey(0, true) - PositionKey(o, true)) != 0
  {
    hide PositionKey;
    if PositionKey(0, true) == PositionKey(o, true) {
      PositionInjective(0, o);
    }
  }
}
