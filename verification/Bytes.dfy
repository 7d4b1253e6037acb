/** Bytes, little-endian fields, bitwise or of shifted fields, and power-of-two alignment. */
module Bytes {
  import opened Common

  type Byte = x: nat | x < 256

  function Zeros(n: nat): (z: seq<Byte>)
    ensures |z| == n && forall i :: 0 <= i < n ==> z[i] == 0
  {
    seq<Byte>(n, _ => 0)
  }

  // ---------------------------------------------------------------- little-endian fields

  /** The `n` low bytes of `v`, least significant first. */
  function ToLe(n: nat, v: nat): (s: seq<Byte>)
    ensures |s| == n
  {
    if n == 0 then [] else [v % 256] + ToLe(n - 1, v / 256)
  }

  function FromLe(s: seq<Byte>): nat {
    if s == [] then 0 else s[0] + 256 * FromLe(s[1..])
  }

  function Power256(n: nat): (p: nat)
    ensures p >= 1
  {
    if n == 0 then 1 else 256 * Power256(n - 1)
  }

  lemma {:induction false} FromTo(n: nat, v: nat)
    requires v < Power256(n)
    ensures FromLe(ToLe(n, v)) == v
  {
    if n > 0 {
      FromTo(n - 1, v / 256);
      assert ToLe(n, v)[1..] == ToLe(n - 1, v / 256);
    }
  }

  lemma {:induction false} ToFrom(s: seq<Byte>)
    ensures FromLe(s) < Power256(|s|) && ToLe(|s|, FromLe(s)) == s
  {
    if s != [] {
      ToFrom(s[1..]);
      var low: nat, high := s[0], FromLe(s[1..]);
      var v := low + 256 * high;
      assert v % 256 == low && v / 256 == high;
      assert ToLe(|s|, v) == [v % 256] + ToLe(|s| - 1, v / 256);
      assert s == [s[0]] + s[1..];
    }
  }

  lemma FieldSizes()
    ensures Power256(2) == 0x1_0000 && Power256(4) == 0x1_0000_0000
    ensures Power256(8) == 0x1_0000_0000_0000_0000
  {
    assert Power256(1) == 256;
    assert Power256(3) == 0x100_0000;
    assert Power256(5) == 0x100_0000_0000;
    assert Power256(6) == 0x1_0000_0000_0000;
    assert Power256(7) == 0x100_0000_0000_0000;
  }

  // ---------------------------------------------------------------- bitwise or

  function BitOr(a: nat, b: nat): nat
    decreases a + b
  {
    if a == 0 && b == 0 then 0
    else 2 * BitOr(a / 2, b / 2) + (if a % 2 == 1 || b % 2 == 1 then 1 else 0)
  }

  lemma {:induction false} BitOrZero(a: nat)
    ensures BitOr(0, a) == a && BitOr(a, 0) == a
    decreases a
  {
    if a > 0 {
      BitOrZero(a / 2);
    }
  }

  /** A field shifted past all bits of `a` is simply added. */
  lemma {:induction false} BitOrDisjoint(a: nat, b: nat, k: nat)
    requires a < Power2(k)
    ensures BitOr(a, Shl(b, k)) == a + Shl(b, k)
    decreases k
  {
    if k == 0 {
      BitOrZero(b);
    } else {
      BitOrDisjoint(a / 2, b, k - 1);
      assert Shl(b, k) / 2 == Shl(b, k - 1) && Shl(b, k) % 2 == 0;
      if a == 0 && Shl(b, k) == 0 {
        assert BitOr(0, 0) == 0;
      }
    }
  }

  lemma {:induction false} ShlIsTimes(b: nat, k: nat)
    ensures Shl(b, k) == b * Power2(k)
  {
    if k > 0 {
      ShlIsTimes(b, k - 1);
      Twice(b, Power2(k - 1));
    }
  }

  lemma Twice(b: nat, p: nat)
    ensures 2 * (b * p) == b * (2 * p)
  {
  }

  // ---------------------------------------------------------------- alignment

  /** The least multiple of `a` at or above `v`; for a power of two this clears the low bits
      of v + a - 1. */
  function AlignUp(v: nat, a: nat): (r: nat)
    requires a > 0
    ensures v <= r < v + a
  {
    AlignBounds(v, a);
    (v + a - 1) / a * a
  }

  lemma AlignBounds(v: nat, a: nat)
    requires a > 0
    ensures v <= (v + a - 1) / a * a < v + a
  {
    var q, r := (v + a - 1) / a, (v + a - 1) % a;
    assert v + a - 1 == q * a + r;
  }

  lemma {:induction false} MultipleMod(q: nat, a: nat)
    requires a > 0
    ensures (q * a) % a == 0
    decreases q
  {
    if q > 0 {
      MultipleMod(q - 1, a);
      assert q * a == (q - 1) * a + a;
      AddMod((q - 1) * a, a);
    }
  }

  lemma AddMod(x: nat, a: nat)
    requires a > 0
    ensures (x + a) % a == x % a
  {
    var q, r := x / a, x % a;
    assert x + a == (q + 1) * a + r;
    DivUnique(x + a, a, q + 1, r);
  }

  lemma NextMultiple(p: nat, a: nat)
    ensures (p + 1) * a == p * a + a
  {
  }

  lemma {:induction false} MultiplesApart(p: nat, q: nat, a: nat)
    requires p < q
    ensures p * a + a <= q * a
    decreases q
  {
    NextMultiple(q - 1, a);
    if p < q - 1 {
      MultiplesApart(p, q - 1, a);
    }
  }

  lemma SameQuotient(a: nat, p: nat, s: nat, q: nat, r: nat)
    requires p * a + s == q * a + r && s < a && r < a
    ensures p == q
  {
    if p < q {
      MultiplesApart(p, q, a);
    } else if q < p {
      MultiplesApart(q, p, a);
    }
  }

  lemma DivUnique(x: nat, a: nat, q: nat, r: nat)
    requires a > 0 && x == q * a + r && r < a
    ensures x / a == q && x % a == r
  {
    assert x == x / a * a + x % a;
    SameQuotient(a, x / a, x % a, q, r);
  }

  /** The digit of `a` in base `m` above its low part modulo `p`. */
  lemma NextDigit(a: nat, p: nat, m: nat)
    requires p > 0 && m > 0
    ensures p * m > 0 && a % (p * m) == a % p + p * (a / p % m)
  {
    var q, r := a / p, a % p;
    var s, t := q / m, q % m;
    Quotient(a, p);
    Quotient(q, m);
    DigitsMakeUp(a, p, m, r, t, s);
  }

  lemma Quotient(a: nat, p: nat)
    requires p > 0
    ensures a == p * (a / p) + a % p && a % p < p
  {
  }

  lemma DigitsMakeUp(a: nat, p: nat, m: nat, r: nat, t: nat, s: nat)
    requires r < p && t < m && a == p * (m * s + t) + r
    ensures p * m > 0 && a % (p * m) == r + p * t
  {
    DistributeDigit(p, m, s, t);
    MultiplesApart(t, m, p);
    DivUnique(a, p * m, s, p * t + r);
  }

  /** Bit `k` of a number, counted from the lowest. */
  function BitOf(x: nat, k: nat): nat {
    if k == 0 then x % 2 else BitOf(x / 2, k - 1)
  }

  lemma BitBelow(x: nat, k: nat)
    ensures BitOf(x / 2, k) == BitOf(x, k + 1)
    ensures BitOf(x, 0) == x % 2
  {
  }

  lemma {:induction false} ShiftedBits(x: nat, d: nat, k: nat)
    ensures BitOf(Shr(x, d), k) == BitOf(x, k + d)
    decreases d
  {
    hide BitOf;
    if d > 0 {
      ShiftedBits(x / 2, d - 1, k);
      BitBelow(x, k + d - 1);
    }
  }

  lemma DistributeDigit(p: nat, m: nat, s: nat, t: nat)
    ensures p * (m * s + t) == s * (p * m) + p * t
  {
  }

  lemma DigitAt(a: nat, low: nat, digit: nat, high: nat, p: nat, m: nat)
    requires low < p && digit < m && a == low + p * (digit + m * high)
    ensures a / p % m == digit
  {
    DivUnique(a, p, digit + m * high, low);
    DivUnique(digit + m * high, m, high, digit);
  }

  /** An aligned position is a multiple of the alignment, and of any divisor of it. */
  lemma AlignMultiple(v: nat, a: nat, b: nat)
    requires a > 0 && b > 0
    ensures AlignUp(v, a * b) % a == 0
  {
    var q := (v + a * b - 1) / (a * b);
    assert AlignUp(v, a * b) == q * (a * b) == (q * b) * a;
    MultipleMod(q * b, a);
  }

}
