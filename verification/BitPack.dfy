/** The general bit packer: codes of 1 to 8 bits laid end to end, lowest bit first. */
module BitPack {
  import opened Bytes
  import opened BitStream
  import opened Common

  predicate ValidCodes(values: seq<int>, bits: nat) {
    forall i :: 0 <= i < |values| ==> 0 <= values[i] < Power2(bits)
  }

  /** The same numbers, known to be non-negative. */
  function AsCodes(values: seq<int>): (codes: seq<nat>)
    requires forall i :: 0 <= i < |values| ==> 0 <= values[i]
    ensures |codes| == |values| && forall i :: 0 <= i < |codes| ==> codes[i] == values[i]
  {
    seq<nat>(|values|, i requires 0 <= i < |values| => values[i])
  }

  predicate Written(out: seq<Byte>, stream: seq<bool>) {
    |stream| <= 8 * |out| && UnpackBits(out) == stream + Falses(8 * |out| - |stream|)
  }

  lemma WrittenIsPacked(out: seq<Byte>, stream: seq<bool>)
    requires Written(out, stream) && |out| == PackedLength(|stream|)
    ensures out == PackBits(stream)
  {
    hide UnpackBits, PackBits, PackedLength, Falses;
    UnpackPack(stream);
    assert UnpackBits(out) == UnpackBits(PackBits(stream));
    PackUnpack(out);
    PackUnpack(PackBits(stream));
  }

  lemma WriteZero(out: seq<Byte>, stream: seq<bool>)
    requires Written(out, stream) && |stream| < 8 * |out|
    ensures Written(out, stream + [false])
  {
    hide UnpackBits;
    var rest := 8 * |out| - |stream|;
    assert Falses(rest) == [false] + Falses(rest - 1);
    assert stream + ([false] + Falses(rest - 1)) == stream + [false] + Falses(rest - 1);
  }

  lemma WriteOne(out: seq<Byte>, stream: seq<bool>, value: nat)
    requires Written(out, stream) && |stream| < 8 * |out|
    requires value == BitOr(out[|stream| / 8], Shl(1, |stream| % 8))
    ensures value < 256 && Written(out[|stream| / 8 := value], stream + [true])
  {
    hide UnpackBits, Bits, BitOr, Shl, Power2;
    var i, k := |stream| / 8, |stream| % 8;
    Power2Of8();
    SetBit(out[i], 8, k);
    UnpackUpdate(out, i, value, k);
    var rest := 8 * |out| - |stream|;
    assert (stream + Falses(rest))[|stream| := true] == stream + [true] + Falses(rest - 1);
  }

  lemma Power2Of8()
    ensures Power2(8) == 256
  {
    assert Power2(4) == 16;
  }

  lemma NothingWritten(out: seq<Byte>)
    requires forall i :: 0 <= i < |out| ==> out[i] == 0
    ensures Written(out, [])
  {
    hide Bits;
    var bits := UnpackBits(out);
    forall p | 0 <= p < |bits| ensures !bits[p] {
      UnpackAt(out, p);
      ZeroBits(8);
    }
    assert bits == [] + Falses(8 * |out|);
  }

  lemma {:induction false} ZeroBits(n: nat)
    ensures Bits(0, n) == Falses(n)
  {
    if n > 0 {
      ZeroBits(n - 1);
    }
  }

  /** Sets the bits of one code from position `|stream|` on. */
  method WriteCode(out: array<Byte>, ghost stream: seq<bool>, cursor: nat, value: nat, bits: nat)
    requires Written(out[..], stream) && cursor == |stream| && cursor + bits <= 8 * out.Length
    modifies out
    ensures Written(out[..], stream + Bits(value, bits))
  {
    hide Written, Bits, BitOr, Shl;
    ghost var now := stream;
    assert Bits(value, bits)[..0] == [] && stream + [] == stream;
    var b := 0;
    while b < bits
      invariant 0 <= b <= bits
      invariant now == stream + Bits(value, bits)[..b] && Written(out[..], now)
    {
      BitAt(value, bits, b);
      if Shr(value, b) % 2 == 1 {
        var i := (cursor + b) / 8;
        ghost var was := out[..];
        var updated := BitOr(out[i], Shl(1, (cursor + b) % 8));
        WriteOne(was, now, updated);
        out[i] := updated;
        assert out[..] == was[i := updated];
        now := now + [true];
      } else {
        WriteZero(out[..], now);
        now := now + [false];
      }
      assert Bits(value, bits)[..b + 1] == Bits(value, bits)[..b] + [Bits(value, bits)[b]];
      b := b + 1;
    }
    assert Bits(value, bits)[..b] == Bits(value, bits);
  }

  /** Fails exactly on a width outside 1..8 or a code that does not fit it. */
  method PackCodes(values: seq<int>, bits: int) returns (r: Option<seq<Byte>>)
    ensures r.Some? <==> 1 <= bits <= 8 && ValidCodes(values, bits)
    ensures r.Some? ==> r.value == PackBits(CodeBits(AsCodes(values), bits))
  {
    hide Bits, PackBits, Written, Power2, CodeBits;
    if !(1 <= bits <= 8) {
      return None;
    }
    var out := new Byte[(|values| * bits + 7) / 8](_ => 0);
    NothingWritten(out[..]);
    ghost var stream: seq<bool> := [];
    var cursor, i := 0, 0;
    NoBits(bits);
    while i < |values|
      invariant 0 <= i <= |values| && cursor == i * bits == |stream|
      invariant forall j :: 0 <= j < i ==> 0 <= values[j] < Power2(bits)
      invariant stream == CodeBits(AsCodes(values[..i]), bits)
      invariant Written(out[..], stream)
    {
      var value := values[i];
      if !(0 <= value < Power2(bits)) {
        return None;
      }
      MultiplesApart(i, |values|, bits);
      NextMultiple(i, bits);
      WriteCode(out, stream, cursor, value, bits);
      assert AsCodes(values[..i + 1]) == AsCodes(values[..i]) + [value];
      CodeBitsAppend(AsCodes(values[..i]), [value], bits);
      OneCode(value, bits);
      stream := stream + Bits(value, bits);
      cursor := cursor + bits;
      i := i + 1;
    }
    assert values[..i] == values;
    WrittenIsPacked(out[..], stream);
    return Some(out[..]);
  }

  /** Where a code goes: bit `j` of code `i` is bit `i * bits + j` of the buffer. */
  lemma PackedCodeBit(codes: seq<nat>, bits: nat, i: nat, j: nat)
    requires i < |codes| && j < bits
    ensures var p, packed := i * bits + j, PackBits(CodeBits(codes, bits));
            p / 8 < |packed| && (BitOf(codes[i], j) == 1 <==> BitOf(packed[p / 8], p % 8) == 1)
  {
    hide Bits, BitOf, PackBits, CodeBits;
    CodeBitIs(codes, bits, i, j);
    PackedBit(CodeBits(codes, bits), i * bits + j);
  }

  lemma NoBits(bits: nat)
    ensures CodeBits([], bits) == []
  {
  }

  lemma OneCode(value: nat, bits: nat)
    ensures CodeBits([value], bits) == Bits(value, bits)
  {
    hide Bits;
    assert [value][1..] == [];
    assert Bits(value, bits) + [] == Bits(value, bits);
  }

  /** Reads `count` codes; fails exactly when the buffer ends first. */
  method UnpackCodes(raw: seq<Byte>, bits: nat, count: nat) returns (r: Option<seq<nat>>)
    ensures r.Some? <==> count * bits <= 8 * |raw|
    ensures r.Some? ==> r.value == Grouped(UnpackBits(raw), bits, count)
  {
    hide Bits, Number, Grouped, UnpackBits;
    var result: seq<nat> := [];
    ghost var stream := UnpackBits(raw);
    var cursor, i := 0, 0;
    assert stream[0..] == stream;
    while i < count
      invariant 0 <= i <= count && cursor == i * bits && |result| == i
      invariant cursor <= 8 * |raw| && count * bits == cursor + (count - i) * bits
      invariant count * bits <= 8 * |raw| ==>
                  result + Grouped(stream[cursor..], bits, count - i) == Grouped(stream, bits, count)
    {
      NextMultiple(i, bits);
      NextMultiple(count - i - 1, bits);
      NotNegative(count - i - 1, bits);
      var b, value := 0, 0;
      ghost var code := stream[cursor..cursor];
      NoNumber(code);
      while b < bits
        invariant 0 <= b <= bits && cursor + b <= 8 * |raw|
        invariant code == stream[cursor..cursor + b] && value == Number(code)
      {
        if cursor + b >= 8 * |raw| {
          return None;
        }
        UnpackAt(raw, cursor + b);
        BitAt(raw[(cursor + b) / 8], 8, (cursor + b) % 8);
        var bit := Shr(raw[(cursor + b) / 8], (cursor + b) % 8) % 2;
        NextBit(code, bit == 1);
        value := BitOr(value, Shl(bit, b));
        code := code + [bit == 1];
        b := b + 1;
      }
      if count * bits <= 8 * |raw| {
        GroupedStep(stream[cursor..], bits, count - i);
        assert stream[cursor..][..bits] == code && stream[cursor..][bits..] == stream[cursor + bits..];
        assert result + ([value] + Grouped(stream[cursor + bits..], bits, count - i - 1))
               == result + [value] + Grouped(stream[cursor + bits..], bits, count - i - 1);
      }
      result := result + [value];
      cursor := cursor + bits;
      i := i + 1;
    }
    assert result + Grouped(stream[cursor..], bits, 0) == result;
    return Some(result);
  }

  lemma NotNegative(k: nat, bits: nat)
    ensures k * bits >= 0
  {
  }

  lemma NoNumber(code: seq<bool>)
    requires code == []
    ensures Number(code) == 0
  {
  }

  lemma GroupedStep(stream: seq<bool>, bits: nat, count: nat)
    requires count > 0 && |stream| >= count * bits
    ensures count * bits == (count - 1) * bits + bits && (count - 1) * bits >= 0
    ensures Grouped(stream, bits, count)
            == [Number(stream[..bits])] + Grouped(stream[bits..], bits, count - 1)
  {
    NextMultiple(count - 1, bits);
    NotNegative(count - 1, bits);
  }

  /** Or-ing the next bit into place appends it. */
  lemma NextBit(code: seq<bool>, bit: bool)
    ensures BitOr(Number(code), Shl(if bit then 1 else 0, |code|)) == Number(code + [bit])
  {
    hide BitOr, Shl, Number;
    NumberFits(code);
    NumberAppend(code, [bit]);
    OneBitNumber(bit);
    BitOrDisjoint(Number(code), Number([bit]), |code|);
  }

  lemma OneBitNumber(bit: bool)
    ensures Number([bit]) == if bit then 1 else 0
  {
    assert [bit][1..] == [];
  }

  lemma {:induction false} NumberAppend(a: seq<bool>, b: seq<bool>)
    ensures Number(a + b) == Number(a) + Shl(Number(b), |a|)
  {
    if a == [] {
      assert a + b == b;
    } else {
      NumberAppend(a[1..], b);
      assert (a + b)[1..] == a[1..] + b;
    }
  }

  // ---------------------------------------------------------------- round trips

  /** Unpacking what was packed returns the codes; the buffer is as short as it can be and its
      spare bits are zero. */
  lemma PackRoundTrip(values: seq<int>, bits: nat)
    requires ValidCodes(values, bits)
    ensures var stream := CodeBits(AsCodes(values), bits);
            var raw := PackBits(stream);
            && |stream| == |values| * bits && |raw| == PackedLength(|values| * bits)
            && 8 * |raw| >= |values| * bits
            && UnpackBits(raw)[|values| * bits..] == Falses(8 * |raw| - |values| * bits)
            && Grouped(UnpackBits(raw), bits, |values|) == AsCodes(values)
  {
    hide PackBits, UnpackBits, CodeBits, Grouped, Power2;
    var codes := AsCodes(values);
    var stream := CodeBits(codes, bits);
    CodeBitsLength(codes, bits);
    UnpackPack(stream);
    GroupedRoundTrip(codes, bits, Falses(8 * PackedLength(|stream|) - |stream|));
  }

  /** A buffer whose bits are all used packs back to itself. */
  lemma UnpackRoundTrip(raw: seq<Byte>, bits: nat, count: nat)
    requires count * bits == 8 * |raw|
    ensures PackBits(CodeBits(Grouped(UnpackBits(raw), bits, count), bits)) == raw
  {
    hide PackBits, UnpackBits, CodeBits, Grouped;
    GroupedInverse(UnpackBits(raw), bits, count);
    PackUnpack(raw);
  }
}
