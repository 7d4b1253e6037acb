/** The 3-bit packer of the C3 kernels: eight codes in three bytes, group by group. */
module C3Pack {
  import opened Bytes
  import opened BitStream
  import opened BitPack
  import opened Common

  // ---------------------------------------------------------------- words and bit positions

  /** A number put above the `k` low bits of another one. */
  lemma {:induction false} LowHigh(low: nat, high: nat, k: nat, n: nat)
    requires low < Power2(k)
    ensures Bits(low + Shl(high, k), k + n) == Bits(low, k) + Bits(high, n)
    decreases k
  {
    if k > 0 {
      LowHigh(low / 2, high, k - 1, n);
      var v := low + Shl(high, k);
      assert v / 2 == low / 2 + Shl(high, k - 1) && v % 2 == low % 2;
      assert Bits(v, k + n) == [v % 2 == 1] + Bits(v / 2, k - 1 + n);
    }
  }

  lemma ShlByte(v: nat)
    ensures Shl(v, 8) == 256 * v
  {
    ShlIsTimes(v, 8);
    Power2Of8();
  }

  lemma {:induction false} BitsOfWord(bytes: seq<Byte>)
    ensures Bits(FromLe(bytes), 8 * |bytes|) == UnpackBits(bytes)
  {
    hide Bits, Shl, Power2;
    if bytes == [] {
      NoBit(0);
    } else {
      var high := FromLe(bytes[1..]);
      BitsOfWord(bytes[1..]);
      Power2Of8();
      ShlByte(high);
      LowHigh(bytes[0], high, 8, 8 * |bytes[1..]|);
    }
  }

  lemma NoBit(v: nat)
    ensures Bits(v, 0) == []
  {
  }

  /** The word made of the first bytes, as the kernels assemble it. */
  function Word24(bytes: seq<Byte>, at: nat): nat
    requires at + 3 <= |bytes|
  {
    BitOr(BitOr(bytes[at], Shl(bytes[at + 1], 8)), Shl(bytes[at + 2], 16))
  }

  lemma WordIsLe(bytes: seq<Byte>, at: nat)
    requires at + 3 <= |bytes|
    ensures Word24(bytes, at) == FromLe(bytes[at..at + 3])
  {
    hide BitOr, Shl, Power2;
    var a: nat, b: nat, c: nat := bytes[at], bytes[at + 1], bytes[at + 2];
    Power2Of8();
    ShlByte(b);
    BitOrDisjoint(a, b, 8);
    PowerOf16();
    ShlIsTimes(c, 16);
    BitOrDisjoint(a + 256 * b, c, 16);
    FromLe3(bytes[at..at + 3]);
  }

  lemma PowerOf16()
    ensures Power2(16) == 0x1_0000
  {
    assert Power2(4) == 16;
    assert Power2(8) == 256;
    assert Power2(12) == 4096;
  }

  lemma FromLe3(s: seq<Byte>)
    requires |s| == 3
    ensures var a: nat, b: nat, c: nat := s[0], s[1], s[2];
            FromLe(s) == a + 256 * b + 0x1_0000 * c
  {
    assert s[1..][1..] == s[2..] && s[2..][1..] == [];
    assert FromLe(s[2..]) == s[2] + 256 * FromLe(s[2..][1..]);
    assert FromLe(s[1..]) == s[1] + 256 * FromLe(s[1..][1..]);
  }

  /** (u >> 3 * i) & 7 */
  function Lane(u: nat, i: nat): (code: nat)
    ensures code < 8
  {
    Shr(u, 3 * i) % 8
  }

  lemma ThreeBits(v: nat)
    ensures Number(Bits(v, 3)) == v % 8
  {
    var s := Bits(v, 3);
    assert s == [v % 2 == 1, v / 2 % 2 == 1, v / 4 % 2 == 1] by {
      assert v / 2 / 2 == v / 4;
      assert Bits(v / 4, 1) == [v / 4 % 2 == 1];
      assert Bits(v / 2, 2) == [v / 2 % 2 == 1] + Bits(v / 4, 1);
    }
    NumberOf3(s);
  }

  lemma NumberOf3(s: seq<bool>)
    requires |s| == 3
    ensures Number(s)
            == (if s[0] then 1 else 0) + (if s[1] then 2 else 0) + (if s[2] then 4 else 0)
  {
    assert s[1..][1..] == [s[2]] && [s[2]][1..] == [];
    assert Number([s[2]]) == if s[2] then 1 else 0;
  }

  /** A lane of a little-endian word is the code at that place of its bit stream. */
  lemma LaneBits(bytes: seq<Byte>, i: nat)
    requires 3 * i + 3 <= 8 * |bytes|
    ensures Lane(FromLe(bytes), i) == Number(UnpackBits(bytes)[3 * i..3 * i + 3])
  {
    hide Bits, Number, UnpackBits;
    var u := FromLe(bytes);
    BitsOfWord(bytes);
    BitsBetween(u, 8 * |bytes|, 3 * i, 3);
    ThreeBits(Shr(u, 3 * i));
  }

  lemma {:induction false} UnpackSlice(bytes: seq<Byte>, i: nat, j: nat)
    requires i <= j <= |bytes|
    ensures UnpackBits(bytes)[8 * i..8 * j] == UnpackBits(bytes[i..j])
  {
    hide Bits, UnpackBits;
    var left, right := UnpackBits(bytes)[8 * i..8 * j], UnpackBits(bytes[i..j]);
    forall p | 0 <= p < 8 * (j - i) ensures left[p] == right[p] {
      UnpackAt(bytes, 8 * i + p);
      UnpackAt(bytes[i..j], p);
    }
  }

  // ---------------------------------------------------------------- the codes of a packed row

  /** The codes that `groups` groups of three bytes stand for. */
  function RowCodes(row: seq<Byte>, groups: nat): (codes: seq<nat>)
    requires |row| >= 3 * groups
    ensures |codes| == 8 * groups
  {
    Grouped(UnpackBits(row), 3, 8 * groups)
  }

  lemma {:induction false} GroupedAt(stream: seq<bool>, count: nat, k: nat)
    requires |stream| >= count * 3 && k < count
    ensures 3 * k + 3 <= |stream|
    ensures Grouped(stream, 3, count)[k] == Number(stream[3 * k..3 * k + 3])
    decreases k
  {
    hide Number;
    if k > 0 {
      GroupedAt(stream[3..], count - 1, k - 1);
      assert stream[3..][3 * (k - 1)..3 * (k - 1) + 3] == stream[3 * k..3 * k + 3];
    }
  }

  lemma SliceOfSlice(s: seq<bool>, from: nat, to: nat, i: nat, j: nat)
    requires from <= to <= |s| && i <= j <= to - from
    ensures s[from..to][i..j] == s[from + i..from + j]
  {
    var left, right := s[from..to][i..j], s[from + i..from + j];
    forall p | 0 <= p < j - i ensures left[p] == right[p] {
      assert left[p] == s[from..to][i + p] == s[from + (i + p)];
    }
  }

  /** Lane `i` of a word read at group `g` is code 8 * g + i; longer words hold more lanes. */
  lemma LaneIsCode(row: seq<Byte>, groups: nat, g: nat, length: nat, i: nat)
    requires |row| >= 3 * groups && 3 * g + length <= |row|
    requires 3 * i + 3 <= 8 * length && 8 * g + i < 8 * groups
    ensures Lane(FromLe(row[3 * g..3 * g + length]), i) == RowCodes(row, groups)[8 * g + i]
  {
    hide Number, UnpackBits, Grouped, Lane;
    var stream := UnpackBits(row);
    LaneBits(row[3 * g..3 * g + length], i);
    UnpackSlice(row, 3 * g, 3 * g + length);
    GroupedAt(stream, 8 * groups, 8 * g + i);
    var from, to := 8 * (3 * g), 8 * (3 * g + length);
    SliceOfSlice(stream, from, to, 3 * i, 3 * i + 3);
  }

  lemma WordLane(row: seq<Byte>, groups: nat, g: nat, i: nat)
    requires |row| >= 3 * groups && g < groups && i < 8
    ensures Lane(Word24(row, 3 * g), i) == RowCodes(row, groups)[8 * g + i]
  {
    hide Lane, RowCodes, Word24, FromLe;
    WordIsLe(row, 3 * g);
    LaneIsCode(row, groups, g, 3, i);
  }

  // ---------------------------------------------------------------- packing

  /** code & 7 */
  function Masked(codes: seq<Byte>): (m: seq<nat>)
    ensures |m| == |codes| && forall i :: 0 <= i < |m| ==> m[i] < 8
  {
    seq<nat>(|codes|, i requires 0 <= i < |codes| => codes[i] % 8)
  }

  /** The next code or-ed in above the earlier ones. */
  lemma OrCode(codes: seq<nat>, code: nat)
    requires code < 8
    ensures BitOr(Number(CodeBits(codes, 3)), Shl(code, 3 * |codes|))
            == Number(CodeBits(codes + [code], 3))
  {
    hide BitOr, Shl, Number, Bits, CodeBits, Power2;
    var bits := CodeBits(codes, 3);
    CodeBitsLength(codes, 3);
    CodeBitsAppend(codes, [code], 3);
    OneCode(code, 3);
    NumberFits(bits);
    assert Power2(3) == 8 by { PowerOf3(); }
    NumberOfBits(code, 3);
    NumberAppend(bits, Bits(code, 3));
    BitOrDisjoint(Number(bits), code, |bits|);
  }

  lemma PowerOf3()
    ensures Power2(3) == 8
  {
    assert Power2(1) == 2;
  }

  /** The word of eight codes, as the packer assembles it. */
  function CodeWord(c: seq<nat>): nat
    requires |c| == 8
  {
    var u1 := BitOr(c[0], Shl(c[1], 3));
    var u2 := BitOr(u1, Shl(c[2], 6));
    var u3 := BitOr(u2, Shl(c[3], 9));
    var u4 := BitOr(u3, Shl(c[4], 12));
    var u5 := BitOr(u4, Shl(c[5], 15));
    var u6 := BitOr(u5, Shl(c[6], 18));
    BitOr(u6, Shl(c[7], 21))
  }

  lemma {:induction false} CodeWordIs(c: seq<nat>)
    requires |c| == 8 && forall i :: 0 <= i < 8 ==> c[i] < 8
    ensures CodeWord(c) == Number(CodeBits(c, 3))
  {
    hide BitOr, Shl, Number, CodeBits;
    FirstCode(c[0]);
    OrCode([c[0]], c[1]);
    OrCode([c[0], c[1]], c[2]);
    OrCode([c[0], c[1], c[2]], c[3]);
    OrCode([c[0], c[1], c[2], c[3]], c[4]);
    OrCode([c[0], c[1], c[2], c[3], c[4]], c[5]);
    OrCode([c[0], c[1], c[2], c[3], c[4], c[5]], c[6]);
    OrCode([c[0], c[1], c[2], c[3], c[4], c[5], c[6]], c[7]);
    assert [c[0]] + [c[1]] == [c[0], c[1]];
    assert [c[0], c[1]] + [c[2]] == [c[0], c[1], c[2]];
    assert [c[0], c[1], c[2]] + [c[3]] == [c[0], c[1], c[2], c[3]];
    assert [c[0], c[1], c[2], c[3]] + [c[4]] == [c[0], c[1], c[2], c[3], c[4]];
    assert [c[0], c[1], c[2], c[3], c[4]] + [c[5]] == [c[0], c[1], c[2], c[3], c[4], c[5]];
    assert [c[0], c[1], c[2], c[3], c[4], c[5]] + [c[6]]
           == [c[0], c[1], c[2], c[3], c[4], c[5], c[6]];
    assert [c[0], c[1], c[2], c[3], c[4], c[5], c[6]] + [c[7]] == c;
  }

  lemma FirstCode(code: nat)
    requires code < 8
    ensures Number(CodeBits([code], 3)) == code
  {
    hide Bits, CodeBits, Power2;
    OneCode(code, 3);
    PowerOf3();
    NumberOfBits(code, 3);
  }

  /** The bytes of a word are the packed form of its bits. */
  lemma {:induction false} WordBytes(bits: seq<bool>, n: nat)
    requires |bits| == 8 * n
    ensures ToLe(n, Number(bits)) == PackBits(bits)
    decreases n
  {
    hide Power2, Shl;
    if n > 0 {
      var low, high := bits[..8], bits[8..];
      assert bits == low + high;
      NumberAppend(low, high);
      NumberFits(low);
      Power2Of8();
      ShlByte(Number(high));
      WordBytes(high, n - 1);
      LowByte(Number(low), Number(high));
      if n == 1 {
        assert low == bits && high == [];
      }
    }
  }

  lemma LowByte(low: nat, high: nat)
    requires low < 256
    ensures (low + 256 * high) % 256 == low && (low + 256 * high) / 256 == high
  {
  }

  lemma {:induction false} PackSplits(a: seq<bool>, b: seq<bool>, n: nat)
    requires |a| == 8 * n
    ensures PackBits(a + b) == PackBits(a) + PackBits(b)
    decreases n
  {
    hide ByteOf, PackBits;
    if n == 0 {
      assert a + b == b;
      PackNothing(a);
    } else {
      PackSplits(a[8..], b, n - 1);
      PackFirst(a + b);
      PackFirst(a);
      assert (a + b)[8..] == a[8..] + b && (a + b)[..8] == a[..8];
    }
  }

  lemma PackNothing(bits: seq<bool>)
    requires |bits| == 0
    ensures PackBits(bits) == []
  {
  }

  lemma PackFirst(bits: seq<bool>)
    requires |bits| >= 8
    ensures PackBits(bits) == [ByteOf(bits[..8])] + PackBits(bits[8..])
  {
    hide ByteOf;
    if |bits| == 8 {
      assert bits[..8] == bits && bits[8..] == [];
    }
  }

  lemma Bytes3(u: nat)
    ensures ToLe(3, u) == [u % 256, u / 256 % 256, u / 0x1_0000 % 256]
  {
    assert u / 256 / 256 == u / 0x1_0000;
    assert ToLe(1, u / 0x1_0000) == [u / 0x1_0000 % 256];
    assert ToLe(2, u / 256) == [u / 256 % 256] + ToLe(1, u / 0x1_0000);
  }

  /** Packs the whole groups of a code array; codes beyond the last whole group are dropped and
      bytes beyond its three are left alone. */
  method PackRow(codes: array<Byte>, packed: array<Byte>, count: nat)
    requires count <= codes.Length && 3 * (count / 8) <= packed.Length && codes != packed
    modifies packed
    ensures packed[..3 * (count / 8)] == PackBits(CodeBits(Masked(codes[..8 * (count / 8)]), 3))
    ensures packed[3 * (count / 8)..] == old(packed[3 * (count / 8)..])
  {
    hide PackBits, CodeBits, CodeWord, Masked, ToLe;
    var groups := count / 8;
    ghost var source := codes[..8 * groups];
    var g := 0;
    NonePacked(source[..0]);
    while g < groups
      invariant 0 <= g <= groups
      invariant packed[..3 * g] == PackBits(CodeBits(Masked(source[..8 * g]), 3))
      invariant packed[3 * groups..] == old(packed[3 * groups..])
    {
      ghost var done := packed[..3 * g];
      var c := Masked(codes[8 * g..8 * g + 8]);
      var u := CodeWord(c);
      packed[3 * g] := u % 256;
      packed[3 * g + 1] := u / 256 % 256;
      packed[3 * g + 2] := u / 0x1_0000 % 256;
      Bytes3(u);
      GroupPacked(source, g);
      assert codes[8 * g..8 * g + 8] == source[8 * g..8 * g + 8];
      assert packed[..3 * (g + 1)] == done + [u % 256, u / 256 % 256, u / 0x1_0000 % 256];
      g := g + 1;
    }
    assert source[..8 * g] == source;
  }

  lemma NonePacked(none: seq<Byte>)
    requires none == []
    ensures PackBits(CodeBits(Masked(none), 3)) == []
  {
  }

  lemma GroupPacked(source: seq<Byte>, g: nat)
    requires 8 * g + 8 <= |source|
    ensures PackBits(CodeBits(Masked(source[..8 * (g + 1)]), 3))
            == PackBits(CodeBits(Masked(source[..8 * g]), 3))
               + ToLe(3, CodeWord(Masked(source[8 * g..8 * g + 8])))
  {
    hide PackBits, CodeBits, CodeWord, ToLe, Number;
    var before, group := Masked(source[..8 * g]), Masked(source[8 * g..8 * g + 8]);
    assert Masked(source[..8 * (g + 1)]) == before + group;
    CodeBitsAppend(before, group, 3);
    CodeBitsLength(before, 3);
    CodeBitsLength(group, 3);
    PackSplits(CodeBits(before, 3), CodeBits(group, 3), 3 * g);
    CodeWordIs(group);
    WordBytes(CodeBits(group, 3), 3);
  }

  /** Unpacking the whole groups of a packed row. */
  method UnpackRow(packed: array<Byte>, codes: array<Byte>, count: nat)
    requires count <= codes.Length && 3 * (count / 8) <= packed.Length && codes != packed
    modifies codes
    ensures codes[..8 * (count / 8)] == RowCodes(packed[..3 * (count / 8)], count / 8)
    ensures codes[8 * (count / 8)..] == old(codes[8 * (count / 8)..])
  {
    hide RowCodes, Word24, Lane;
    var groups := count / 8;
    ghost var row := packed[..3 * groups];
    ghost var expected := RowCodes(row, groups);
    var g := 0;
    while g < groups
      invariant 0 <= g <= groups
      invariant forall k :: 0 <= k < 8 * g ==> codes[k] == expected[k]
      invariant codes[8 * groups..] == old(codes[8 * groups..])
    {
      var u := Word24(packed[..], 3 * g);
      assert Word24(packed[..], 3 * g) == Word24(row, 3 * g) by { SameWord(packed[..], row, 3 * g); }
      ghost var before := codes[..8 * g];
      var i := 0;
      while i < 8
        invariant 0 <= i <= 8
        invariant forall k :: 0 <= k < 8 * g + i ==> codes[k] == expected[k]
        invariant codes[8 * groups..] == old(codes[8 * groups..])
      {
        WordLane(row, groups, g, i);
        codes[8 * g + i] := Lane(u, i);
        i := i + 1;
      }
      g := g + 1;
    }
  }

  lemma SameWord(long: seq<Byte>, short: seq<Byte>, at: nat)
    requires short <= long && at + 3 <= |short|
    ensures Word24(long, at) == Word24(short, at)
  {
    hide BitOr, Shl;
  }

  /** The packed row holds exactly the codes that were packed, and it is what the general packer
      writes for them at three bits. */
  lemma PackedRowCodes(codes: seq<nat>, groups: nat)
    requires |codes| == 8 * groups && forall i :: 0 <= i < |codes| ==> codes[i] < 8
    ensures var row := PackBits(CodeBits(codes, 3));
            |row| == 3 * groups && RowCodes(row, groups) == codes
  {
    hide PackBits, UnpackBits, CodeBits, Grouped, Power2;
    var bits := CodeBits(codes, 3);
    CodeBitsLength(codes, 3);
    UnpackPack(bits);
    PowerOf3();
    GroupedRoundTrip(codes, 3, []);
    assert bits + [] == bits && bits + Falses(0) == bits;
  }
}
