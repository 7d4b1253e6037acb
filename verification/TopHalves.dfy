/**
 The generators store only the top half of a 32-bit state. For every family and round count
 there are inputs 2^31 apart whose states differ in their top halves, so no nonzero shift of
 the combined seed leaves all stored values as they are.
 */
module TopHalves {
  import opened Common
  import opened Words
  import opened Jump
  import opened Mutation

  const HALF: U32 := 0x8000_0000

  /** The state as a signed word, shifted right by 16 bits. */
  function Top(state: U32): int {
    if state < HALF then state / 0x1_0000 else state / 0x1_0000 - 0x1_0000
  }

  lemma TopFlips(state: U32)
    ensures Top(W(state + HALF)) != Top(state)
  {
  }

  // ---------------------------------------------------------------- affine steps keep the distance

  lemma OddHalf(a: nat, b: nat, x: U32)
    requires a % 2 == 1
    ensures W(a * W(x + HALF) + b) == W(W(a * x + b) + HALF)
  {
    var q := a / 2;
    var k := Quotient(x + HALF);
    var p := Quotient(a * x + b);
    assert W(x + HALF) == x + HALF - M * k;
    assert a * W(x + HALF) + b == a * x + b + HALF + M * (q - a * k) by { SpreadHalf(a, q, x, k); }
    Shifted(a * x + b + HALF, q - a * k);
    assert a * x + b + HALF == W(a * x + b) + HALF + M * p;
    Shifted(W(a * x + b) + HALF, p);
  }

  lemma SpreadHalf(a: int, q: int, x: int, k: int)
    requires a == 2 * q + 1
    ensures a * (x + HALF - M * k) == a * x + HALF + M * (q - a * k)
  {
    assert a * (x + HALF - M * k) == a * x + a * HALF - a * (M * k);
    assert a * (M * k) == M * (a * k);
  }

  lemma {:induction false} IterateHalf(n: nat, x: U32)
    ensures Iterate(LCG_A, LCG_B, n, W(x + HALF)) == W(Iterate(LCG_A, LCG_B, n, x) + HALF)
    decreases n
  {
    hide W, Affine;
    if n == 0 {
      WordId(x);
      WordId(W(x + HALF));
    } else {
      AffineHalf(x);
      IterateHalf(n - 1, Affine(LCG_A, LCG_B, x));
    }
  }

  lemma AffineHalf(x: U32)
    ensures Affine(LCG_A, LCG_B, W(x + HALF)) == W(Affine(LCG_A, LCG_B, x) + HALF)
  {
    hide W;
    OddHalf(LCG_A, LCG_B, x);
  }

  lemma {:induction false} AffineRoundsHalf(rounds: nat, lane: nat, x: U32)
    requires rounds <= 4
    ensures Rounds(LaneAffine, rounds, lane, W(x + HALF)) == W(Rounds(LaneAffine, rounds, lane, x) + HALF)
  {
    hide W, Round;
    if rounds > 0 {
      AffineRoundsHalf(rounds - 1, lane, x);
      AffineRoundHalf(rounds - 1, lane, Rounds(LaneAffine, rounds - 1, lane, x));
    }
  }

  lemma AffineRoundHalf(round: nat, lane: nat, z: U32)
    requires round < 4
    ensures Round(LaneAffine, round, lane, W(z + HALF)) == W(Round(LaneAffine, round, lane, z) + HALF)
  {
    hide W, A, LaneAdd, XorShift;
    OddHalf(A(round), LaneAdd(round, lane), z);
  }

  // ---------------------------------------------------------------- exclusive or of given words

  /** The exclusive or of digits below 4. */
  predicate Crumb(a: nat, b: nat, c: nat) {
    && a < 4 && b < 4 && c < 4
    && ((a == 0 && b == c) || (b == 0 && a == c) || (c == 0 && a == b)
        || (a + b + c == 6 && a != b && b != c && a != c))
  }

  lemma XorCrumb(a: nat, b: nat, c: nat, x: nat, y: nat, z: nat)
    requires Crumb(a, b, c) && BitXor(x, y) == z
    ensures BitXor(a + 4 * x, b + 4 * y) == c + 4 * z
  {
    hide BitXor;
    AppendBit(a / 2, b / 2, c / 2, x, y, z);
    AppendBit(a % 2, b % 2, c % 2, a / 2 + 2 * x, b / 2 + 2 * y, c / 2 + 2 * z);
  }

  lemma AppendBit(a: nat, b: nat, c: nat, x: nat, y: nat, z: nat)
    requires a < 2 && b < 2 && c < 2 && (c == 1) == (a != b) && BitXor(x, y) == z
    ensures BitXor(a + 2 * x, b + 2 * y) == c + 2 * z
  {
    hide BitXor;
    BitXorUnfold(a + 2 * x, b + 2 * y);
  }

  /** One hexadecimal digit, of two digits below 4 each, put below known words. */
  lemma XorDigit(a: nat, a1: nat, b: nat, b1: nat, c: nat, c1: nat, x: nat, y: nat, z: nat)
    requires Crumb(a, b, c) && Crumb(a1, b1, c1) && BitXor(x, y) == z
    ensures BitXor(a + 4 * a1 + 16 * x, b + 4 * b1 + 16 * y) == c + 4 * c1 + 16 * z
  {
    hide BitXor, Crumb;
    XorCrumb(a1, b1, c1, x, y, z);
    XorCrumb(a, b, c, a1 + 4 * x, b1 + 4 * y, c1 + 4 * z);
  }

  // ---------------------------------------------------------------- two runs of the xor family

  /** Checks one round in lane 0 against given values of the mixed, the shifted and the xored word. */
  lemma XorRound(round: nat, state: U32, mixed: U32, shifted: U32, xored: U32, next: U32)
    requires round < 4
    requires W(state * A(round) + LaneAdd(round, 0)) == mixed && Shr(mixed, K(round)) == shifted
    requires BitXor(mixed, shifted) == xored && W(xored * C(round)) == next
    ensures Round(AffineXor, round, 0, state) == next
  {
    hide W, A, C, K, LaneAdd, Shr, BitXor;
  }

  lemma ZeroXor0()
    ensures BitXor(0x7F4A_7C15, 0xFE_94F8) == 0x7FB4_E8ED
  {
    hide BitXor;
    BitXorSelf(0);
    XorDigit(3, 1, 0, 0, 3, 1, 0, 0, 0);
    XorDigit(3, 3, 0, 0, 3, 3, 7, 0, 7);
    XorDigit(0, 1, 3, 3, 3, 2, 0x7F, 0, 0x7F);
    XorDigit(2, 2, 2, 3, 0, 1, 0x7F4, 0xF, 0x7FB);
    XorDigit(3, 1, 1, 2, 2, 3, 0x7F4A, 0xFE, 0x7FB4);
    XorDigit(0, 3, 0, 1, 0, 2, 0x7F4A7, 0xFE9, 0x7FB4E);
    XorDigit(1, 0, 3, 3, 2, 3, 0x7F4A7C, 0xFE94, 0x7FB4E8);
    XorDigit(1, 1, 0, 2, 1, 3, 0x7F4A7C1, 0xFE94F, 0x7FB4E8E);
  }

  lemma ZeroRound0()
    ensures Round(AffineXor, 0, 0, 0x0) == 0x2421_BA1F
  {
    hide Round, BitXor;
    assert W(0x0 * A(0) + LaneAdd(0, 0)) == 0x7F4A_7C15;
    assert Shr(0x7F4A_7C15, 7) == 0xFE_94F8;
    assert W(0x7FB4_E8ED * C(0)) == 0x2421_BA1F;
    ZeroXor0();
    XorRound(0, 0x0, 0x7F4A_7C15, 0xFE_94F8, 0x7FB4_E8ED, 0x2421_BA1F);
  }

  lemma ZeroXor1()
    ensures BitXor(0x7455_621A, 0xE_8AAC) == 0x745B_E8B6
  {
    hide BitXor;
    BitXorSelf(0);
    XorDigit(3, 1, 0, 0, 3, 1, 0, 0, 0);
    XorDigit(0, 1, 0, 0, 0, 1, 7, 0, 7);
    XorDigit(1, 1, 0, 0, 1, 1, 0x74, 0, 0x74);
    XorDigit(1, 1, 2, 3, 3, 2, 0x745, 0, 0x745);
    XorDigit(2, 1, 0, 2, 2, 3, 0x7455, 0xE, 0x745B);
    XorDigit(2, 0, 2, 2, 0, 2, 0x74556, 0xE8, 0x745BE);
    XorDigit(1, 0, 2, 2, 3, 2, 0x745562, 0xE8A, 0x745BE8);
    XorDigit(2, 2, 0, 3, 2, 1, 0x7455621, 0xE8AA, 0x745BE8B);
  }

  lemma ZeroRound1()
    ensures Round(AffineXor, 1, 0, 0x2421_BA1F) == 0xEFB6_FEAA
  {
    hide Round, BitXor;
    assert W(0x2421_BA1F * A(1) + LaneAdd(1, 0)) == 0x7455_621A;
    assert Shr(0x7455_621A, 11) == 0xE_8AAC;
    assert W(0x745B_E8B6 * C(1)) == 0xEFB6_FEAA;
    ZeroXor1();
    XorRound(1, 0x2421_BA1F, 0x7455_621A, 0xE_8AAC, 0x745B_E8B6, 0xEFB6_FEAA);
  }

  lemma ZeroXor2()
    ensures BitXor(0x3988_9EEF, 0x1C_C44F) == 0x3994_5AA0
  {
    hide BitXor;
    BitXorSelf(0);
    XorDigit(3, 0, 0, 0, 3, 0, 0, 0, 0);
    XorDigit(1, 2, 0, 0, 1, 2, 3, 0, 3);
    XorDigit(0, 2, 1, 0, 1, 2, 0x39, 0, 0x39);
    XorDigit(0, 2, 0, 3, 0, 1, 0x398, 1, 0x399);
    XorDigit(1, 2, 0, 3, 1, 1, 0x3988, 0x1C, 0x3994);
    XorDigit(2, 3, 0, 1, 2, 2, 0x39889, 0x1CC, 0x39945);
    XorDigit(2, 3, 0, 1, 2, 2, 0x39889E, 0x1CC4, 0x39945A);
    XorDigit(3, 3, 3, 3, 0, 0, 0x39889EE, 0x1CC44, 0x39945AA);
  }

  lemma ZeroRound2()
    ensures Round(AffineXor, 2, 0, 0xEFB6_FEAA) == 0x66B7_0E20
  {
    hide Round, BitXor;
    assert W(0xEFB6_FEAA * A(2) + LaneAdd(2, 0)) == 0x3988_9EEF;
    assert Shr(0x3988_9EEF, 9) == 0x1C_C44F;
    assert W(0x3994_5AA0 * C(2)) == 0x66B7_0E20;
    ZeroXor2();
    XorRound(2, 0xEFB6_FEAA, 0x3988_9EEF, 0x1C_C44F, 0x3994_5AA0, 0x66B7_0E20);
  }

  lemma ZeroXor3()
    ensures BitXor(0x7583_3EA5, 0x3_AC19) == 0x7580_92BC
  {
    hide BitXor;
    BitXorSelf(0);
    XorDigit(3, 1, 0, 0, 3, 1, 0, 0, 0);
    XorDigit(1, 1, 0, 0, 1, 1, 7, 0, 7);
    XorDigit(0, 2, 0, 0, 0, 2, 0x75, 0, 0x75);
    XorDigit(3, 0, 3, 0, 0, 0, 0x758, 0, 0x758);
    XorDigit(3, 0, 2, 2, 1, 2, 0x7583, 3, 0x7580);
    XorDigit(2, 3, 0, 3, 2, 0, 0x75833, 0x3A, 0x75809);
    XorDigit(2, 2, 1, 0, 3, 2, 0x75833E, 0x3AC, 0x758092);
    XorDigit(1, 1, 1, 2, 0, 3, 0x75833EA, 0x3AC1, 0x758092B);
  }

  lemma ZeroRound3()
    ensures Round(AffineXor, 3, 0, 0x66B7_0E20) == 0x345_9414
  {
    hide Round, BitXor;
    assert W(0x66B7_0E20 * A(3) + LaneAdd(3, 0)) == 0x7583_3EA5;
    assert Shr(0x7583_3EA5, 13) == 0x3_AC19;
    assert W(0x7580_92BC * C(3)) == 0x345_9414;
    ZeroXor3();
    XorRound(3, 0x66B7_0E20, 0x7583_3EA5, 0x3_AC19, 0x7580_92BC, 0x345_9414);
  }

  lemma HalfXor0()
    ensures BitXor(0xFF4A_7C15, 0x1FE_94F8) == 0xFEB4_E8ED
  {
    hide BitXor;
    BitXorSelf(0);
    XorDigit(3, 3, 0, 0, 3, 3, 0, 0, 0);
    XorDigit(3, 3, 1, 0, 2, 3, 0xF, 0, 0xF);
    XorDigit(0, 1, 3, 3, 3, 2, 0xFF, 1, 0xFE);
    XorDigit(2, 2, 2, 3, 0, 1, 0xFF4, 0x1F, 0xFEB);
    XorDigit(3, 1, 1, 2, 2, 3, 0xFF4A, 0x1FE, 0xFEB4);
    XorDigit(0, 3, 0, 1, 0, 2, 0xFF4A7, 0x1FE9, 0xFEB4E);
    XorDigit(1, 0, 3, 3, 2, 3, 0xFF4A7C, 0x1FE94, 0xFEB4E8);
    XorDigit(1, 1, 0, 2, 1, 3, 0xFF4A7C1, 0x1FE94F, 0xFEB4E8E);
  }

  lemma HalfRound0()
    ensures Round(AffineXor, 0, 0, 0x8000_0000) == 0xE921_BA1F
  {
    hide Round, BitXor;
    assert W(0x8000_0000 * A(0) + LaneAdd(0, 0)) == 0xFF4A_7C15;
    assert Shr(0xFF4A_7C15, 7) == 0x1FE_94F8;
    assert W(0xFEB4_E8ED * C(0)) == 0xE921_BA1F;
    HalfXor0();
    XorRound(0, 0x8000_0000, 0xFF4A_7C15, 0x1FE_94F8, 0xFEB4_E8ED, 0xE921_BA1F);
  }

  lemma HalfXor1()
    ensures BitXor(0x755_621A, 0xEAAC) == 0x755_88B6
  {
    hide BitXor;
    BitXorSelf(0);
    XorDigit(0, 0, 0, 0, 0, 0, 0, 0, 0);
    XorDigit(3, 1, 0, 0, 3, 1, 0, 0, 0);
    XorDigit(1, 1, 0, 0, 1, 1, 7, 0, 7);
    XorDigit(1, 1, 0, 0, 1, 1, 0x75, 0, 0x75);
    XorDigit(2, 1, 2, 3, 0, 2, 0x755, 0, 0x755);
    XorDigit(2, 0, 2, 2, 0, 2, 0x7556, 0xE, 0x7558);
    XorDigit(1, 0, 2, 2, 3, 2, 0x75562, 0xEA, 0x75588);
    XorDigit(2, 2, 0, 3, 2, 1, 0x755621, 0xEAA, 0x75588B);
  }

  lemma HalfRound1()
    ensures Round(AffineXor, 1, 0, 0xE921_BA1F) == 0xD897_5EAA
  {
    hide Round, BitXor;
    assert W(0xE921_BA1F * A(1) + LaneAdd(1, 0)) == 0x755_621A;
    assert Shr(0x755_621A, 11) == 0xEAAC;
    assert W(0x755_88B6 * C(1)) == 0xD897_5EAA;
    HalfXor1();
    XorRound(1, 0xE921_BA1F, 0x755_621A, 0xEAAC, 0x755_88B6, 0xD897_5EAA);
  }

  lemma HalfXor2()
    ensures BitXor(0xF83F_7EEF, 0x7C_1FBF) == 0xF843_6150
  {
    hide BitXor;
    BitXorSelf(0);
    XorDigit(3, 3, 0, 0, 3, 3, 0, 0, 0);
    XorDigit(0, 2, 0, 0, 0, 2, 0xF, 0, 0xF);
    XorDigit(3, 0, 3, 1, 0, 1, 0xF8, 0, 0xF8);
    XorDigit(3, 3, 0, 3, 3, 0, 0xF83, 7, 0xF84);
    XorDigit(3, 1, 1, 0, 2, 1, 0xF83F, 0x7C, 0xF843);
    XorDigit(2, 3, 3, 3, 1, 0, 0xF83F7, 0x7C1, 0xF8436);
    XorDigit(2, 3, 3, 2, 1, 1, 0xF83F7E, 0x7C1F, 0xF84361);
    XorDigit(3, 3, 3, 3, 0, 0, 0xF83F7EE, 0x7C1FB, 0xF843615);
  }

  lemma HalfRound2()
    ensures Round(AffineXor, 2, 0, 0xD897_5EAA) == 0x9B6D_AB10
  {
    hide Round, BitXor;
    assert W(0xD897_5EAA * A(2) + LaneAdd(2, 0)) == 0xF83F_7EEF;
    assert Shr(0xF83F_7EEF, 9) == 0x7C_1FBF;
    assert W(0xF843_6150 * C(2)) == 0x9B6D_AB10;
    HalfXor2();
    XorRound(2, 0xD897_5EAA, 0xF83F_7EEF, 0x7C_1FBF, 0xF843_6150, 0x9B6D_AB10);
  }

  lemma HalfXor3()
    ensures BitXor(0x4BDA_5EB5, 0x2_5ED2) == 0x4BD8_0067
  {
    hide BitXor;
    BitXorSelf(0);
    XorDigit(0, 1, 0, 0, 0, 1, 0, 0, 0);
    XorDigit(3, 2, 0, 0, 3, 2, 4, 0, 4);
    XorDigit(1, 3, 0, 0, 1, 3, 0x4B, 0, 0x4B);
    XorDigit(2, 2, 2, 0, 0, 2, 0x4BD, 0, 0x4BD);
    XorDigit(1, 1, 1, 1, 0, 0, 0x4BDA, 2, 0x4BD8);
    XorDigit(2, 3, 2, 3, 0, 0, 0x4BDA5, 0x25, 0x4BD80);
    XorDigit(3, 2, 1, 3, 2, 1, 0x4BDA5E, 0x25E, 0x4BD800);
    XorDigit(1, 1, 2, 0, 3, 1, 0x4BDA5EB, 0x25ED, 0x4BD8006);
  }

  lemma HalfRound3()
    ensures Round(AffineXor, 3, 0, 0x9B6D_AB10) == 0x85FF_01ED
  {
    hide Round, BitXor;
    assert W(0x9B6D_AB10 * A(3) + LaneAdd(3, 0)) == 0x4BDA_5EB5;
    assert Shr(0x4BDA_5EB5, 13) == 0x2_5ED2;
    assert W(0x4BD8_0067 * C(3)) == 0x85FF_01ED;
    HalfXor3();
    XorRound(3, 0x9B6D_AB10, 0x4BDA_5EB5, 0x2_5ED2, 0x4BD8_0067, 0x85FF_01ED);
  }

  /** The states after each round of the run from 0 and of the run from 2^31. */
  lemma XorRuns(rounds: nat)
    requires 1 <= rounds <= 4
    ensures Top(Rounds(AffineXor, rounds, 0, 0)) != Top(Rounds(AffineXor, rounds, 0, HALF))
  {
    hide Round;
    ZeroRound0();
    HalfRound0();
    if rounds > 1 {
      ZeroRound1();
      HalfRound1();
    }
    if rounds > 2 {
      ZeroRound2();
      HalfRound2();
    }
    if rounds > 3 {
      ZeroRound3();
      HalfRound3();
    }
    RoundsStep(0, 0);
    RoundsStep(0, HALF);
    RoundsStep(1, 0);
    RoundsStep(1, HALF);
    RoundsStep(2, 0);
    RoundsStep(2, HALF);
    RoundsStep(3, 0);
    RoundsStep(3, HALF);
  }

  lemma RoundsStep(rounds: nat, state: U32)
    requires rounds < 4
    ensures Rounds(AffineXor, 0, 0, state) == state
    ensures Rounds(AffineXor, rounds + 1, 0, state)
            == Round(AffineXor, rounds, 0, Rounds(AffineXor, rounds, 0, state))
  {
    hide Round;
  }

  // ---------------------------------------------------------------- every family

  /** For every family and round count some input and its neighbour at distance 2^31 differ in the
      top half of their states in lane 0. */
  lemma HalfChangesTop(family: Family, rounds: nat)
    requires rounds <= 4
    ensures Top(FromRoot(family, rounds, 0, 0)) != Top(FromRoot(family, rounds, 0, W(0 + HALF)))
  {
    hide Rounds, Iterate, Top;
    LaneZero(family, rounds);
    match family {
      case LcgJump =>
        IterateHalf(1 + rounds, 0);
        TopFlips(Iterate(LCG_A, LCG_B, 1 + rounds, 0));
      case LaneAffine =>
        AffineRoundsHalf(rounds, 0, 0);
        TopFlips(Rounds(LaneAffine, rounds, 0, 0));
      case AffineXor =>
        if rounds == 0 {
          TopFlips(0);
        } else {
          XorRuns(rounds);
        }
    }
  }

  lemma LaneZero(family: Family, rounds: nat)
    requires rounds <= 4
    ensures W(0 + HALF) == HALF
    ensures family.LcgJump? ==> forall x: U32 ::
              FromRoot(family, rounds, 0, x) == Iterate(LCG_A, LCG_B, 1 + rounds, x)
    ensures !family.LcgJump? ==> forall x: U32 ::
              FromRoot(family, rounds, 0, x) == Rounds(family, rounds, 0, x)
    ensures Rounds(family, 0, 0, 0) == 0 && Rounds(family, 0, 0, HALF) == HALF
  {
    hide Round, Iterate;
    forall x: U32 | !family.LcgJump?
      ensures FromRoot(family, rounds, 0, x) == Rounds(family, rounds, 0, x)
    {
      WordId(x);
    }
  }

  // ---------------------------------------------------------------- multiples of a distance

  /** Some multiple of a nonzero distance below 2^m is 2^(m-1) modulo 2^m. */
  lemma {:induction false} ReachHalf(d: nat, m: nat) returns (k: nat, j: int)
    requires 0 < d < Power2(m)
    ensures m > 0 && k * d == Power2(m - 1) + j * Power2(m)
    decreases m
  {
    if d % 2 == 1 {
      var (w, q) := InverseBits(d, m);
      k, j := w * Power2(m - 1), q * Power2(m - 1);
      TimesInverse(d, w, q, Power2(m - 1), Power2(m));
    } else {
      var i, l := ReachHalf(d / 2, m - 1);
      k, j := i, l;
      TwiceHalf(i, d / 2, Power2(m - 2), l, Power2(m - 1));
    }
  }

  lemma TimesInverse(d: int, w: int, q: int, h: int, p: int)
    requires d * w == 1 + q * p
    ensures (w * h) * d == h + (q * h) * p
  {
    assert (w * h) * d == (d * w) * h;
    assert (1 + q * p) * h == h + (q * h) * p;
  }

  lemma TwiceHalf(k: int, d: int, h: int, j: int, p: int)
    requires k * d == h + j * p
    ensures k * (2 * d) == 2 * h + j * (2 * p)
  {
    assert k * (2 * d) == 2 * (k * d);
    assert j * (2 * p) == 2 * (j * p);
  }

  /** Shifting the combined seed by `d` never changes a top half. */
  ghost predicate Blind(family: Family, rounds: nat, d: nat)
    requires rounds <= 4
  {
    forall root: U32 ::
      Top(FromRoot(family, rounds, 0, root)) == Top(FromRoot(family, rounds, 0, W(root + d)))
  }

  lemma NextTimes(k: nat, d: nat)
    ensures (k + 1) * d == k * d + d
  {
  }

  lemma {:induction false} BlindMultiple(family: Family, rounds: nat, d: nat, k: nat, root: U32)
    requires rounds <= 4 && Blind(family, rounds, d)
    ensures Top(FromRoot(family, rounds, 0, root)) == Top(FromRoot(family, rounds, 0, W(root + k * d)))
    decreases k
  {
    hide FromRoot, Top;
    if k == 0 {
      WordId(root);
    } else {
      BlindMultiple(family, rounds, d, k - 1, root);
      var next := W(root + (k - 1) * d);
      AddWrap(root + (k - 1) * d, d);
      NextTimes(k - 1, d);
    }
  }

  /** No nonzero distance is blind. */
  lemma NothingIsBlind(family: Family, rounds: nat, d: U32)
    requires rounds <= 4 && d != 0
    ensures !Blind(family, rounds, d)
  {
    hide FromRoot, Top, Blind, Power2;
    PowerOfWord();
    HalfOfWord();
    var k, j := ReachHalf(d, 32);
    if Blind(family, rounds, d) {
      BlindMultiple(family, rounds, d, k, 0);
      Shifted(0 + HALF, j);
      HalfChangesTop(family, rounds);
    }
  }

  lemma HalfOfWord()
    ensures Power2(31) == HALF
  {
    PowerOfWord();
    assert Power2(32) == 2 * Power2(31);
  }
}
