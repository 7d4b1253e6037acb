/** Bits packed into bytes, least significant bit first, the last byte filled with zero bits. */
module BitStream {
  import opened Bytes
  import opened Common

  function Falses(n: nat): (s: seq<bool>)
    ensures |s| == n && forall i :: 0 <= i < n ==> !s[i]
  {
    seq(n, _ => false)
  }

  /** The number with the given bits, lowest first. */
  function Number(bits: seq<bool>): nat {
    if bits == [] then 0 else (if bits[0] then 1 else 0) + 2 * Number(bits[1..])
  }

  /** The `n` low bits of `v`, lowest first. */
  function Bits(v: nat, n: nat): (s: seq<bool>)
    ensures |s| == n
    decreases n
  {
    if n == 0 then [] else [v % 2 == 1] + Bits(v / 2, n - 1)
  }

  lemma {:induction false} NumberFits(bits: seq<bool>)
    ensures Number(bits) < Power2(|bits|)
  {
    if bits != [] {
      NumberFits(bits[1..]);
    }
  }

  lemma {:induction false} BitsOfNumber(bits: seq<bool>, n: nat)
    requires |bits| <= n
    ensures Bits(Number(bits), n) == bits + Falses(n - |bits|)
    decreases n
  {
    if bits != [] {
      BitsOfNumber(bits[1..], n - 1);
      assert Number(bits) / 2 == Number(bits[1..]) && (Number(bits) % 2 == 1) == bits[0];
      assert bits + Falses(n - |bits|) == [bits[0]] + (bits[1..] + Falses(n - |bits|));
    } else if n > 0 {
      BitsOfNumber([], n - 1);
      assert Falses(n) == [false] + Falses(n - 1);
      assert [] + Falses(n) == Falses(n) && [] + Falses(n - 1) == Falses(n - 1);
    }
  }

  lemma {:induction false} NumberOfBits(v: nat, n: nat)
    requires v < Power2(n)
    ensures Number(Bits(v, n)) == v
    decreases n
  {
    if n > 0 {
      NumberOfBits(v / 2, n - 1);
      assert Bits(v, n)[1..] == Bits(v / 2, n - 1);
    }
  }

  function ByteOf(bits: seq<bool>): Byte
    requires |bits| <= 8
  {
    NumberFits(bits);
    ByteLimit(|bits|);
    Number(bits)
  }

  lemma ByteLimit(n: nat)
    requires n <= 8
    ensures Power2(n) <= 256
  {
    assert Power2(4) == 16;
    assert Power2(8) == 256;
    if n < 8 {
      assert n == 0 || n == 1 || n == 2 || n == 3 || n == 4 || n == 5 || n == 6 || n == 7;
    }
  }

  function PackedLength(n: nat): nat {
    (n + 7) / 8
  }

  function PackBits(bits: seq<bool>): (bytes: seq<Byte>)
    decreases |bits|
  {
    if |bits| == 0 then []
    else if |bits| <= 8 then [ByteOf(bits)]
    else [ByteOf(bits[..8])] + PackBits(bits[8..])
  }

  function UnpackBits(bytes: seq<Byte>): (bits: seq<bool>)
    ensures |bits| == 8 * |bytes|
  {
    if bytes == [] then [] else Bits(bytes[0], 8) + UnpackBits(bytes[1..])
  }

  lemma {:induction false} PackBitsLength(bits: seq<bool>)
    ensures |PackBits(bits)| == PackedLength(|bits|)
    decreases |bits|
  {
    hide ByteOf;
    if |bits| > 8 {
      PackBitsLength(bits[8..]);
    }
  }

  /** Unpacking gives the packed bits back, followed only by the zero bits of the last byte. */
  lemma {:induction false} UnpackPack(bits: seq<bool>)
    ensures |PackBits(bits)| == PackedLength(|bits|)
    ensures UnpackBits(PackBits(bits)) == bits + Falses(8 * PackedLength(|bits|) - |bits|)
    decreases |bits|
  {
    hide Bits, Number;
    PackBitsLength(bits);
    if |bits| == 0 {
      assert [] + Falses(0) == [];
    } else if |bits| <= 8 {
      BitsOfNumber(bits, 8);
      assert PackBits(bits)[1..] == [];
      assert Bits(ByteOf(bits), 8) + [] == Bits(ByteOf(bits), 8);
    } else {
      BitsOfNumber(bits[..8], 8);
      UnpackPack(bits[8..]);
      var pad := Falses(8 * PackedLength(|bits|) - |bits|);
      assert PackBits(bits)[1..] == PackBits(bits[8..]);
      assert bits[..8] + Falses(0) == bits[..8];
      assert bits + pad == bits[..8] + (bits[8..] + pad);
    }
  }

  lemma {:induction false} PackUnpack(bytes: seq<Byte>)
    ensures PackBits(UnpackBits(bytes)) == bytes
  {
    hide Bits, Number;
    if bytes != [] {
      var bits := UnpackBits(bytes);
      PackUnpack(bytes[1..]);
      assert bits[..8] == Bits(bytes[0], 8) && bits[8..] == UnpackBits(bytes[1..]);
      assert Power2(4) == 16 && Power2(8) == 256;
      NumberOfBits(bytes[0], 8);
      assert bytes == [bytes[0]] + bytes[1..];
      if |bytes| == 1 {
        assert bits == bits[..8];
      }
    }
  }

  // ---------------------------------------------------------------- bits by position

  lemma {:induction false} BitsBetween(v: nat, n: nat, k: nat, m: nat)
    requires k + m <= n
    ensures Bits(v, n)[k..k + m] == Bits(Shr(v, k), m)
    decreases n
  {
    if k > 0 {
      BitsBetween(v / 2, n - 1, k - 1, m);
      assert Bits(v, n)[k..k + m] == Bits(v / 2, n - 1)[k - 1..k - 1 + m];
    } else if m > 0 {
      BitsBetween(v / 2, n - 1, 0, m - 1);
      assert Bits(v, n)[..m] == [v % 2 == 1] + Bits(v / 2, n - 1)[..m - 1];
    }
  }

  lemma BitAt(v: nat, n: nat, k: nat)
    requires k < n
    ensures Bits(v, n)[k] == (Shr(v, k) % 2 == 1)
  {
    BitsBetween(v, n, k, 1);
    assert Bits(v, n)[k] == Bits(v, n)[k..k + 1][0] == Bits(Shr(v, k), 1)[0];
  }

  lemma BitIs(v: nat, n: nat, k: nat)
    requires k < n
    ensures Bits(v, n)[k] <==> BitOf(v, k) == 1
  {
    hide BitOf, Bits;
    BitAt(v, n, k);
    ShiftedBits(v, k, 0);
    BitBelow(Shr(v, k), 0);
  }

  /** Setting bit `k` with an or. */
  lemma {:induction false} SetBit(v: nat, n: nat, k: nat)
    requires k < n && v < Power2(n)
    ensures BitOr(v, Shl(1, k)) < Power2(n)
    ensures Bits(BitOr(v, Shl(1, k)), n) == Bits(v, n)[k := true]
    decreases n
  {
    var w := BitOr(v, Shl(1, k));
    if k == 0 {
      BitOrZero(v / 2);
      assert w / 2 == v / 2 && w % 2 == 1;
    } else {
      SetBit(v / 2, n - 1, k - 1);
      ShlPositive(k);
      assert Shl(1, k) / 2 == Shl(1, k - 1) && Shl(1, k) % 2 == 0;
      assert w / 2 == BitOr(v / 2, Shl(1, k - 1)) && w % 2 == v % 2;
    }
    assert Bits(w, n) == [w % 2 == 1] + Bits(w / 2, n - 1);
    assert Bits(v, n) == [v % 2 == 1] + Bits(v / 2, n - 1);
  }

  lemma ShlPositive(k: nat)
    ensures Shl(1, k) > 0
  {
  }

  lemma {:induction false} UnpackAt(bytes: seq<Byte>, p: nat)
    requires p < 8 * |bytes|
    ensures UnpackBits(bytes)[p] == Bits(bytes[p / 8], 8)[p % 8]
  {
    hide Bits;
    if p >= 8 {
      UnpackAt(bytes[1..], p - 8);
    }
  }

  lemma UnpackUpdate(bytes: seq<Byte>, i: nat, b: Byte, k: nat)
    requires i < |bytes| && k < 8 && Bits(b, 8) == Bits(bytes[i], 8)[k := true]
    ensures UnpackBits(bytes[i := b]) == UnpackBits(bytes)[8 * i + k := true]
  {
    hide Bits, UnpackBits;
    var now, was := UnpackBits(bytes[i := b]), UnpackBits(bytes);
    forall p | 0 <= p < 8 * |bytes| ensures now[p] == was[8 * i + k := true][p] {
      UnpackAt(bytes, p);
      UnpackAt(bytes[i := b], p);
    }
  }

  /** Where a bit goes: bit `p` of a stream is bit `p % 8` of byte `p / 8`, counted from the lowest. */
  lemma PackedBit(bits: seq<bool>, p: nat)
    requires p < |bits|
    ensures p / 8 < |PackBits(bits)|
    ensures bits[p] <==> BitOf(PackBits(bits)[p / 8], p % 8) == 1
  {
    hide Bits, PackBits, UnpackBits, BitOf;
    UnpackPack(bits);
    UnpackAt(PackBits(bits), p);
    BitIs(PackBits(bits)[p / 8], 8, p % 8);
  }

  // ---------------------------------------------------------------- fixed-width codes

  function CodeBits(codes: seq<nat>, width: nat): seq<bool> {
    if codes == [] then [] else Bits(codes[0], width) + CodeBits(codes[1..], width)
  }

  /** Bit `j` of code `i` is bit `i * width + j` of the stream. */
  lemma {:induction false} CodeBitIs(codes: seq<nat>, width: nat, i: nat, j: nat)
    requires i < |codes| && j < width
    ensures i * width + j < |CodeBits(codes, width)|
    ensures CodeBits(codes, width)[i * width + j] <==> BitOf(codes[i], j) == 1
    decreases i
  {
    hide Bits, BitOf;
    BitIs(codes[i], width, j);
    if i > 0 {
      NextMultiple(i - 1, width);
      CodeBitIs(codes[1..], width, i - 1, j);
    } else {
      assert 0 * width + j == j;
    }
  }

  lemma {:induction false} CodeBitsLength(codes: seq<nat>, width: nat)
    ensures |CodeBits(codes, width)| == |codes| * width
  {
    if codes != [] {
      CodeBitsLength(codes[1..], width);
      NextMultiple(|codes| - 1, width);
    }
  }

  lemma ConcatAssociates(x: seq<bool>, y: seq<bool>, z: seq<bool>)
    ensures x + y + z == x + (y + z)
  {
  }

  lemma {:induction false} CodeBitsAppend(a: seq<nat>, b: seq<nat>, width: nat)
    ensures CodeBits(a + b, width) == CodeBits(a, width) + CodeBits(b, width)
  {
    hide Bits;
    if a == [] {
      assert a + b == b;
    } else {
      CodeBitsAppend(a[1..], b, width);
      assert (a + b)[1..] == a[1..] + b && (a + b)[0] == a[0];
      ConcatAssociates(Bits(a[0], width), CodeBits(a[1..], width), CodeBits(b, width));
    }
  }

  /** The first `count` numbers of `width` bits in a stream. */
  function Grouped(stream: seq<bool>, width: nat, count: nat): (codes: seq<nat>)
    requires |stream| >= count * width
    ensures |codes| == count
    decreases count
  {
    if count == 0 then []
    else
      NextMultiple(count - 1, width);
      [Number(stream[..width])] + Grouped(stream[width..], width, count - 1)
  }

  lemma {:induction false} GroupedRoundTrip(codes: seq<nat>, width: nat, tail: seq<bool>)
    requires forall i :: 0 <= i < |codes| ==> codes[i] < Power2(width)
    ensures |CodeBits(codes, width) + tail| >= |codes| * width
    ensures Grouped(CodeBits(codes, width) + tail, width, |codes|) == codes
  {
    hide Bits, Number;
    CodeBitsLength(codes, width);
    if codes != [] {
      var stream := CodeBits(codes, width) + tail;
      var rest := CodeBits(codes[1..], width) + tail;
      GroupedRoundTrip(codes[1..], width, tail);
      NumberOfBits(codes[0], width);
      assert stream == Bits(codes[0], width) + rest;
      assert stream[..width] == Bits(codes[0], width) && stream[width..] == rest;
      NextMultiple(|codes| - 1, width);
    }
  }

  lemma {:induction false} GroupedInverse(stream: seq<bool>, width: nat, count: nat)
    requires |stream| == count * width
    ensures CodeBits(Grouped(stream, width, count), width) == stream
    decreases count
  {
    hide *;
    if count == 0 {
      NothingGrouped(stream, width);
    } else {
      NextMultiple(count - 1, width);
      FirstGroup(stream, width, count);
      GroupedInverse(stream[width..], width, count - 1);
      assert stream == stream[..width] + stream[width..];
    }
  }

  lemma NothingGrouped(stream: seq<bool>, width: nat)
    requires |stream| == 0
    ensures CodeBits(Grouped(stream, width, 0), width) == stream
  {
  }

  lemma FirstGroup(stream: seq<bool>, width: nat, count: nat)
    requires count > 0 && |stream| == count * width
    ensures width <= |stream| && |stream[width..]| == (count - 1) * width
    ensures CodeBits(Grouped(stream, width, count), width)
            == stream[..width] + CodeBits(Grouped(stream[width..], width, count - 1), width)
  {
    hide Bits, Number;
    NextMultiple(count - 1, width);
    BitsOfNumber(stream[..width], width);
    assert stream[..width] + Falses(0) == stream[..width];
    assert Grouped(stream, width, count)[1..] == Grouped(stream[width..], width, count - 1);
  }
}
