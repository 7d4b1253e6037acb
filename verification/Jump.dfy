/**
 Jumping ahead in a linear congruential generator: the coefficients of its n-fold
 iteration, by repeated squaring, and the table of jumps for each round count and lane.
 */
module Jump {
  import opened Words

  const LCG_A: U32 := 0x9E3779B1
  const LCG_B: U32 := 0x7F4A7C15

  /** One affine step modulo 2^32. */
  function Affine(a: nat, b: nat, x: int): U32 {
    W(a * x + b)
  }

  /** The generator stepped `n` times. */
  function Iterate(a: nat, b: nat, n: nat, x: int): U32
    decreases n
  {
    if n == 0 then W(x) else Iterate(a, b, n - 1, Affine(a, b, x))
  }

  lemma AffineWrap(a: nat, b: nat, x: int)
    ensures Affine(a, b, W(x)) == Affine(a, b, x)
  {
    var k := Quotient(x);
    assert a * x + b == a * W(x) + b + M * (a * k) by { Spread(a, W(x), k); }
    Shifted(a * W(x) + b, a * k);
  }

  lemma Spread(a: int, x: int, k: int)
    ensures a * (x + M * k) == a * x + M * (a * k)
  {
  }

  lemma IterateWrap(a: nat, b: nat, n: nat, x: int)
    ensures Iterate(a, b, n, W(x)) == Iterate(a, b, n, x)
  {
    AffineWrap(a, b, x);
  }

  /** Coefficients taken modulo 2^32 describe the same step. */
  lemma WrapCoefficients(a: nat, b: nat, x: int)
    ensures Affine(W(a), W(b), x) == Affine(a, b, x)
  {
    var j := Quotient(a);
    var k := Quotient(b);
    assert a * x + b == W(a) * x + W(b) + M * (j * x + k) by { Spread2(W(a), j, x, k); }
    Shifted(W(a) * x + W(b), j * x + k);
  }

  lemma Spread2(a: int, j: int, x: int, k: int)
    ensures (a + M * j) * x + M * k == a * x + M * (j * x + k)
  {
  }

  /** Composing two affine steps. */
  lemma Compose(a: nat, b: nat, c: nat, d: nat, x: int)
    ensures Affine(W(c * a), W(d * a + b), x) == Affine(a, b, Affine(c, d, x))
  {
    WrapCoefficients(c * a, d * a + b, x);
    AffineWrap(a, b, c * x + d);
    Expand(a, b, c, d, x);
  }

  lemma Expand(a: int, b: int, c: int, d: int, x: int)
    ensures (c * a) * x + (d * a + b) == a * (c * x + d) + b
  {
  }

  /** Twice the steps of a generator are as many steps of its square. */
  lemma {:induction false} IterateSquare(a: nat, b: nat, n: nat, x: int)
    ensures Iterate(W(a * a), W(b * (a + 1)), n, x) == Iterate(a, b, 2 * n, x)
    decreases n
  {
    if n > 0 {
      var y := Affine(a, b, Affine(a, b, x));
      assert b * (a + 1) == b * a + b;
      Compose(a, b, a, b, x);
      IterateSquare(a, b, n - 1, y);
      assert Iterate(a, b, 2 * n, x) == Iterate(a, b, 2 * n - 1, Affine(a, b, x))
          == Iterate(a, b, 2 * n - 2, y);
    }
  }

  /** Where the loop stands: the pending steps applied to what the accumulator has done. */
  ghost predicate Pending(a: nat, b: nat, steps: nat, accA: nat, accB: nat, a0: nat, b0: nat, n: nat) {
    forall x: int :: Iterate(a, b, steps, Affine(accA, accB, x)) == Iterate(a0, b0, n, x)
  }

  lemma PendingStart(a: nat, b: nat, n: nat)
    ensures Pending(a, b, n, 1, 0, a, b, n)
  {
    forall x: int
      ensures Iterate(a, b, n, Affine(1, 0, x)) == Iterate(a, b, n, x)
    {
      IterateWrap(a, b, n, x);
    }
  }

  lemma PendingOdd(a: nat, b: nat, steps: nat, accA: nat, accB: nat, a0: nat, b0: nat, n: nat)
    requires steps > 0 && Pending(a, b, steps, accA, accB, a0, b0, n)
    ensures Pending(a, b, steps - 1, W(accA * a), W(accB * a + b), a0, b0, n)
  {
    forall x: int
      ensures Iterate(a, b, steps - 1, Affine(W(accA * a), W(accB * a + b), x)) == Iterate(a0, b0, n, x)
    {
      Compose(a, b, accA, accB, x);
      assert Iterate(a, b, steps, Affine(accA, accB, x)) == Iterate(a0, b0, n, x);
    }
  }

  lemma PendingHalve(a: nat, b: nat, steps: nat, accA: nat, accB: nat, a0: nat, b0: nat, n: nat)
    requires Pending(a, b, 2 * steps, accA, accB, a0, b0, n)
    ensures Pending(W(a * a), W(b * (a + 1)), steps, accA, accB, a0, b0, n)
  {
    forall x: int
      ensures Iterate(W(a * a), W(b * (a + 1)), steps, Affine(accA, accB, x)) == Iterate(a0, b0, n, x)
    {
      IterateSquare(a, b, steps, Affine(accA, accB, x));
      assert Iterate(a, b, 2 * steps, Affine(accA, accB, x)) == Iterate(a0, b0, n, x);
    }
  }

  lemma OddProduct(a: nat, b: nat)
    requires a % 2 == 1 && b % 2 == 1
    ensures W(a * b) % 2 == 1
  {
    var k := Quotient(a * b);
    var p, q := a / 2, b / 2;
    assert a * b == 2 * (2 * p * q + p + q) + 1 by { Odds(p, q); }
    assert W(a * b) == 2 * (2 * p * q + p + q - 0x8000_0000 * k) + 1;
  }

  lemma Odds(p: nat, q: nat)
    ensures (2 * p + 1) * (2 * q + 1) == 2 * (2 * p * q + p + q) + 1
  {
  }

  lemma PendingDone(a: nat, b: nat, accA: nat, accB: nat, a0: nat, b0: nat, n: nat)
    requires Pending(a, b, 0, accA, accB, a0, b0, n)
    ensures forall x: int :: Affine(accA, accB, x) == Iterate(a0, b0, n, x)
  {
    hide Affine;
    forall x: int
      ensures Affine(accA, accB, x) == Iterate(a0, b0, n, x)
    {
      assert Iterate(a, b, 0, Affine(accA, accB, x)) == Iterate(a0, b0, n, x);
      WordId(Affine(accA, accB, x));
    }
  }

  /** Repeated squaring: the coefficients of `steps` iterations. */
  method AffineJump(a: nat, b: nat, steps: nat) returns (accA: U32, accB: U32)
    ensures forall x: int :: Affine(accA, accB, x) == Iterate(a, b, steps, x)
    ensures a % 2 == 1 ==> accA % 2 == 1
  {
    hide *;
    accA, accB := 1, 0;
    var a', b', left := a, b, steps;
    PendingStart(a, b, steps);
    while left != 0
      invariant Pending(a', b', left, accA, accB, a, b, steps)
      invariant a % 2 == 1 ==> accA % 2 == 1 && a' % 2 == 1
      decreases left
    {
      if left % 2 == 1 {
        PendingOdd(a', b', left, accA, accB, a, b, steps);
        if a % 2 == 1 { OddProduct(accA, a'); }
        accB := W(accB * a' + b');
        accA := W(accA * a');
      }
      assert Pending(a', b', 2 * (left / 2), accA, accB, a, b, steps);
      PendingHalve(a', b', left / 2, accA, accB, a, b, steps);
      if a % 2 == 1 { OddProduct(a', a'); }
      b' := W(b' * (a' + 1));
      a' := W(a' * a');
      left := left / 2;
    }
    PendingDone(a', b', accA, accB, a, b, steps);
  }

  /** Table entries step the generator lane + 1 + rounds times. */
  ghost predicate IsJump(a: U32, b: U32, steps: nat) {
    a % 2 == 1 && forall x: int :: Affine(a, b, x) == Iterate(LCG_A, LCG_B, steps, x)
  }

  /** The precomputed jumps for every round count and lane. */
  method JumpTables() returns (a: array2<U32>, b: array2<U32>)
    ensures a.Length0 == b.Length0 == 5 && a.Length1 == b.Length1 == 64
    ensures forall rounds, lane :: 0 <= rounds <= 4 && 0 <= lane < 64 ==>
              IsJump(a[rounds, lane], b[rounds, lane], lane + 1 + rounds)
  {
    a, b := new U32[5, 64], new U32[5, 64];
    for rounds := 0 to 5
      invariant forall r, l :: 0 <= r < rounds && 0 <= l < 64 ==> IsJump(a[r, l], b[r, l], l + 1 + r)
    {
      for lane := 0 to 64
        invariant forall r, l :: 0 <= r < rounds && 0 <= l < 64 ==> IsJump(a[r, l], b[r, l], l + 1 + r)
        invariant forall l :: 0 <= l < lane ==> IsJump(a[rounds, l], b[rounds, l], l + 1 + rounds)
      {
        var jumpA, jumpB := AffineJump(LCG_A, LCG_B, lane + 1 + rounds);
        a[rounds, lane], b[rounds, lane] := jumpA, jumpB;
      }
    }
  }
}
