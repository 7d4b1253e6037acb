/** Unsigned 32-bit words: arithmetic modulo 2^32 on integers, and exclusive or on bits. */
module Words {
  import opened Common

  const M: nat := 0x1_0000_0000

  type U32 = x: nat | x < 0x1_0000_0000

  /** Truncation to 32 bits. */
  function W(x: int): U32 {
    x % M
  }

  lemma Quotient(x: int) returns (k: int)
    ensures x == W(x) + M * k
  {
    k := x / M;
  }

  lemma WordId(x: U32)
    ensures W(x) == x
  {
  }

  /** Adding a multiple of 2^32 does not change the word. */
  lemma Shifted(x: int, k: int)
    ensures W(x + M * k) == W(x)
  {
  }

  lemma AddWrap(x: int, y: int)
    ensures W(W(x) + y) == W(x + y)
  {
    var k := Quotient(x);
    Shifted(W(x) + y, k);
  }

  // ---------------------------------------------------------------- inverses

  /** An inverse of an odd number modulo 2^k, built bit by bit, with its quotient. */
  function InverseBits(v: nat, k: nat): (r: (nat, int))
    requires v % 2 == 1
    ensures r.0 < Power2(k) && v * r.0 == 1 + r.1 * Power2(k)
  {
    if k == 0 then (0, -1)
    else
      var (w, q) := InverseBits(v, k - 1);
      var h := Power2(k - 1);
      if q % 2 == 0 then
        assert q * h == (q / 2) * (2 * h) by { HalfOfDouble(q / 2, h); }
        (w, q / 2)
      else
        assert v * (w + h) == 1 + ((q + 1) / 2 + v / 2) * (2 * h) by { OddStep(v, w, q, h); }
        (w + h, (q + 1) / 2 + v / 2)
  }

  lemma HalfOfDouble(half: int, h: nat)
    ensures (2 * half) * h == half * (2 * h)
  {
  }

  lemma OddStep(v: nat, w: nat, q: int, h: nat)
    requires v % 2 == 1 && q % 2 != 0 && v * w == 1 + q * h
    ensures v * (w + h) == 1 + ((q + 1) / 2 + v / 2) * (2 * h)
  {
    var u, p := v / 2, (q + 1) / 2;
    assert v == 2 * u + 1 && q == 2 * p - 1;
    calc {
      v * (w + h);
      v * w + v * h;
      1 + q * h + v * h;
      1 + (2 * p - 1) * h + (2 * u + 1) * h;
      { Sums(p, u, h); }
      1 + (p + u) * (2 * h);
    }
  }

  lemma Sums(p: int, u: int, h: int)
    ensures (2 * p - 1) * h + (2 * u + 1) * h == (p + u) * (2 * h)
  {
  }

  lemma PowerOfWord()
    ensures Power2(32) == M
  {
    assert Power2(8) == 256;
    assert Power2(16) == 65536;
    assert Power2(24) == 16777216;
  }

  /** The modular inverse, or an error for even values. */
  function ModularInverse(value: nat): (r: Result<U32, string>)
    ensures r.Ok? <==> value % 2 == 1
    ensures r.Ok? ==> W(value * r.value) == 1
  {
    if value % 2 == 0 then Err("only odd values are invertible modulo 2^32")
    else
      PowerOfWord();
      var (w, q) := InverseBits(value, 32);
      Shifted(1, q);
      var inverse: U32 := w;
      Ok(inverse)
  }

  function Inv(value: nat): (w: U32)
    requires value % 2 == 1
    ensures W(value * w) == 1
  {
    ModularInverse(value).value
  }

  /** The error is raised exactly for the values that have no inverse. */
  lemma InverseExactly(value: nat)
    ensures ModularInverse(value).Err? <==> forall w: U32 :: W(value * w) != 1
  {
    if value % 2 == 0 {
      forall w: U32
        ensures W(value * w) != 1
      {
        var k := Quotient(value * w);
        assert value * w == 2 * (value / 2 * w);
      }
    } else {
      assert W(value * ModularInverse(value).value) == 1;
    }
  }

  /** Multiplying by an odd factor and adding an offset is undone by its inverse. */
  lemma AffineUndo(a: nat, w: nat, c: int, x: int)
    requires W(a * w) == 1
    ensures W((W(a * x + c) - c) * w) == W(x)
  {
    var k := Quotient(a * x + c);
    var q := Quotient(a * w);
    var y := W(a * x + c) - c;
    assert y == a * x - M * k;
    calc {
      y * w;
      (a * x) * w - (M * k) * w;
      { Reorder(a, x, w, k); }
      x * (a * w) - M * (k * w);
      x * (1 + M * q) - M * (k * w);
      { Collect(x, q, k * w); }
      x + M * (x * q - k * w);
    }
    Shifted(x, x * q - k * w);
  }

  lemma Reorder(a: int, x: int, w: int, k: int)
    ensures (a * x) * w - (M * k) * w == x * (a * w) - M * (k * w)
  {
  }

  lemma Collect(x: int, q: int, r: int)
    ensures x * (1 + M * q) - M * r == x + M * (x * q - r)
  {
  }

  /** And the other way round. */
  lemma AffineRedo(a: nat, w: nat, c: int, y: int)
    requires W(a * w) == 1
    ensures W(a * W((y - c) * w) + c) == W(y)
  {
    var k := Quotient((y - c) * w);
    var q := Quotient(a * w);
    calc {
      a * W((y - c) * w) + c;
      a * ((y - c) * w - M * k) + c;
      { Reorder2(a, y - c, w, k); }
      (y - c) * (a * w) - M * (a * k) + c;
      (y - c) * (1 + M * q) - M * (a * k) + c;
      { Collect(y - c, q, a * k); }
      y + M * ((y - c) * q - a * k);
    }
    Shifted(y, (y - c) * q - a * k);
  }

  lemma Reorder2(a: int, z: int, w: int, k: int)
    ensures a * (z * w - M * k) == z * (a * w) - M * (a * k)
  {
  }

  // ---------------------------------------------------------------- exclusive or

  function BitXor(a: nat, b: nat): nat
    decreases a + b
  {
    if a == 0 && b == 0 then 0
    else 2 * BitXor(a / 2, b / 2) + (if a % 2 == b % 2 then 0 else 1)
  }

  lemma BitXorUnfold(a: nat, b: nat)
    ensures BitXor(a, b) / 2 == BitXor(a / 2, b / 2)
    ensures BitXor(a, b) % 2 == (if a % 2 == b % 2 then 0 else 1)
  {
  }

  lemma {:induction false} BitXorSelf(a: nat)
    ensures BitXor(a, a) == 0 && BitXor(a, 0) == a
    decreases a
  {
    if a > 0 {
      BitXorSelf(a / 2);
    }
  }

  lemma {:induction false} BitXorAssoc(a: nat, b: nat, c: nat)
    ensures BitXor(BitXor(a, b), c) == BitXor(a, BitXor(b, c))
    decreases a + b + c
  {
    if a + b + c > 0 {
      BitXorAssoc(a / 2, b / 2, c / 2);
      BitXorUnfold(a, b);
      BitXorUnfold(b, c);
      BitXorUnfold(BitXor(a, b), c);
      BitXorUnfold(a, BitXor(b, c));
    }
  }

  lemma {:induction false} ShrXor(a: nat, b: nat, k: nat)
    ensures Shr(BitXor(a, b), k) == BitXor(Shr(a, k), Shr(b, k))
    decreases k
  {
    if k > 0 {
      BitXorUnfold(a, b);
      ShrXor(a / 2, b / 2, k - 1);
    }
  }

  lemma {:induction false} ShrShr(x: nat, j: nat, k: nat)
    ensures Shr(Shr(x, j), k) == Shr(x, j + k)
    decreases j
  {
    if j > 0 {
      ShrShr(x / 2, j - 1, k);
    }
  }

  lemma {:induction false} ShrVanishes(x: nat, n: nat, k: nat)
    requires x < Power2(n) && n <= k
    ensures Shr(x, k) == 0
    decreases k
  {
    if k > 0 {
      ShrVanishes(x / 2, if n > 0 then n - 1 else 0, k - 1);
    }
  }

  lemma {:induction false} BitXorBound(a: nat, b: nat, n: nat)
    requires a < Power2(n) && b < Power2(n)
    ensures BitXor(a, b) < Power2(n)
    decreases n
  {
    if n > 0 {
      BitXorBound(a / 2, b / 2, n - 1);
    }
  }

  lemma {:induction false} ShrSmaller(x: nat, k: nat)
    ensures Shr(x, k) <= x
    decreases k
  {
    if k > 0 {
      ShrSmaller(x / 2, k - 1);
    }
  }

  /** x ^ (x >> k) on 32-bit words. */
  function XorShift(x: U32, k: nat): U32 {
    PowerOfWord();
    ShrSmaller(x, k);
    BitXorBound(x, Shr(x, k), 32);
    BitXor(x, Shr(x, k))
  }

  /** One doubling step of the undo loop. */
  lemma UndoStep(x: U32, d: nat)
    ensures XorShift(XorShift(x, d), d) == XorShift(x, 2 * d)
  {
    var y := Shr(x, d);
    ShrXor(x, y, d);
    ShrShr(x, d, d);
    var z := Shr(x, 2 * d);
    BitXorAssoc(x, y, BitXor(y, z));
    BitXorAssoc(y, y, z);
    BitXorSelf(y);
    BitXorZero(z);
  }

  lemma BitXorZero(z: nat)
    ensures BitXor(0, z) == z
    decreases z
  {
    if z > 0 {
      BitXorZero(z / 2);
    }
  }

  /** Undoing a right xorshift: apply it at distances `d`, 2d, 4d, ... below the word size. */
  function UndoXor(value: U32, d: nat): U32
    requires d >= 1
    decreases 32 - d
  {
    if d >= 32 then value else UndoXor(XorShift(value, d), 2 * d)
  }

  /** The loop over doubling distances. */
  method UndoXorRight(value: U32, shift: nat) returns (result: U32)
    requires shift >= 1
    ensures result == UndoXor(value, shift)
  {
    hide XorShift;
    result := value;
    var distance: int := shift;
    while distance < 32
      invariant distance >= 1 && UndoXor(result, distance) == UndoXor(value, shift)
      decreases 32 - distance
    {
      result := XorShift(result, distance);
      distance := distance * 2;
    }
  }

  /** The undo loop inverts the xorshift for every word and every shift of at least one. */
  lemma {:induction false} UndoXorInverts(x: U32, d: nat)
    requires d >= 1
    ensures UndoXor(XorShift(x, d), d) == x
    decreases 32 - d
  {
    if d >= 32 {
      PowerOfWord();
      ShrVanishes(x, 32, d);
      BitXorSelf(x);
    } else {
      UndoStep(x, d);
      UndoXorInverts(x, 2 * d);
    }
  }

  /** Xorshifts commute. */
  lemma XorShiftCommutes(x: U32, d: nat, e: nat)
    ensures XorShift(XorShift(x, d), e) == XorShift(XorShift(x, e), d)
  {
    ShrXor(x, Shr(x, d), e);
    ShrXor(x, Shr(x, e), d);
    ShrShr(x, d, e);
    ShrShr(x, e, d);
    var p, q, r := Shr(x, d), Shr(x, e), Shr(x, d + e);
    BitXorAssoc(x, p, BitXor(q, r));
    BitXorAssoc(x, q, BitXor(p, r));
    BitXorAssoc(p, q, r);
    BitXorAssoc(q, p, r);
    BitXorComm(p, q);
  }

  lemma {:induction false} BitXorComm(a: nat, b: nat)
    ensures BitXor(a, b) == BitXor(b, a)
    decreases a + b
  {
    if a + b > 0 {
      BitXorComm(a / 2, b / 2);
    }
  }

  lemma {:induction false} UndoXorCommutes(x: U32, d: nat, e: nat)
    requires d >= 1
    ensures UndoXor(XorShift(x, e), d) == XorShift(UndoXor(x, d), e)
    decreases 32 - d
  {
    if d < 32 {
      XorShiftCommutes(x, e, d);
      UndoXorCommutes(XorShift(x, d), 2 * d, e);
    }
  }

  /** And the xorshift inverts the undo loop. */
  lemma XorShiftInverts(y: U32, d: nat)
    requires d >= 1
    ensures XorShift(UndoXor(y, d), d) == y
  {
    UndoXorCommutes(y, d, d);
    UndoXorInverts(y, d);
  }
}
