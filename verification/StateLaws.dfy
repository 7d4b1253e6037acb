/** What the states of the generators are: closed affine forms for the two families without xor, the
    bits of a round with xor, how neighbouring lanes and ordinals differ, and what is stored of a
    state. The constants are written out. */
module StateLaws {
  import Bytes
  import opened Common
  import opened Words
  import opened Jump
  import opened Mutation
  import opened TopHalves
  import opened Simd

  // ---------------------------------------------------------------- words

  /** A factor and an offset act on a word as on the number it was cut from. */
  lemma WrapScale(x: int, a: int, c: int)
    ensures W(W(x) * a + c) == W(x * a + c)
  {
    var k := Quotient(x);
    assert x * a + c == W(x) * a + c + M * (k * a) by { SpreadWord(W(x), k, a); }
    Shifted(W(x) * a + c, k * a);
  }

  lemma SpreadWord(x: int, k: int, a: int)
    ensures (x + M * k) * a == x * a + M * (k * a)
  {
  }

  /** b | 1, without a test. */
  function Odd(b: nat): nat {
    b / 2 * 2 + 1
  }

  lemma OrOneIsOdd(b: nat)
    ensures OrOne(b) == Odd(b)
  {
  }

  // ---------------------------------------------------------------- one round in each lane

  /** In the affine family a round is an affine step whose offset grows by B|1 from lane to lane. */
  lemma AffineRound(round: nat, lane: nat, x: U32)
    requires round < 4
    ensures Round(LaneAffine, round, lane, x) == W(x * A(round) + B(round) + lane * Odd(B(round)))
    ensures Round(LaneAffine, round, lane + 1, x) == W(Round(LaneAffine, round, lane, x) + Odd(B(round)))
  {
    OrOneIsOdd(B(round));
    NextLane(x * A(round) + B(round), lane, Odd(B(round)));
  }

  lemma NextLane(base: int, lane: nat, step: int)
    ensures W(base + (lane + 1) * step) == W(W(base + lane * step) + step)
  {
    assert base + (lane + 1) * step == base + lane * step + step;
    AddWrap(base + lane * step, step);
  }

  /** In the xor family a round is the affine one, then an xor with its right shift, then a factor. */
  lemma XorRoundIs(round: nat, lane: nat, x: U32)
    requires round < 4
    ensures Round(AffineXor, round, lane, x)
            == W(XorShift(Round(LaneAffine, round, lane, x), K(round)) * C(round))
  {
    hide W, XorShift, LaneAdd, A, C, K;
  }

  lemma {:induction false} XorBits(a: nat, b: nat, k: nat)
    ensures Bytes.BitOf(BitXor(a, b), k) == (Bytes.BitOf(a, k) + Bytes.BitOf(b, k)) % 2
    decreases k
  {
    hide Bytes.BitOf, BitXor;
    BitXorUnfold(a, b);
    if k == 0 {
      Bytes.BitBelow(a, 0);
      Bytes.BitBelow(b, 0);
      Bytes.BitBelow(BitXor(a, b), 0);
    } else {
      XorBits(a / 2, b / 2, k - 1);
      Bytes.BitBelow(a, k - 1);
      Bytes.BitBelow(b, k - 1);
      Bytes.BitBelow(BitXor(a, b), k - 1);
    }
  }

  /** Bit by bit, the xor with a right shift adds the bit `d` places above, modulo 2. */
  lemma XorShiftBits(x: U32, d: nat, k: nat)
    ensures Bytes.BitOf(XorShift(x, d), k) == (Bytes.BitOf(x, k) + Bytes.BitOf(x, k + d)) % 2
  {
    hide Bytes.BitOf, BitXor;
    XorBits(x, Shr(x, d), k);
    Bytes.ShiftedBits(x, d, k);
  }

  // ---------------------------------------------------------------- the closed form without xor

  /** The product of the factors of rounds `i` up to, not including, `n`. */
  function Factors(i: nat, n: nat): nat
    requires i <= n <= 4
    decreases n - i
  {
    if i == n then 1 else A(i) * Factors(i + 1, n)
  }

  /** What round `k` adds once, or once for every lane. */
  function Addend(k: nat, perLane: bool): nat
    requires k < 4
  {
    if perLane then Odd(B(k)) else B(k)
  }

  /** The addends of rounds `i` up to `n`, each carried through the rounds after it. */
  function Carried(i: nat, n: nat, perLane: bool): nat
    requires i <= n <= 4
    decreases n - i
  {
    if i == n then 0 else Addend(i, perLane) * Factors(i + 1, n) + Carried(i + 1, n, perLane)
  }

  lemma {:induction false} FactorsLast(i: nat, n: nat)
    requires i <= n < 4
    ensures Factors(i, n + 1) == Factors(i, n) * A(n)
    decreases n - i
  {
    hide A;
    if i < n {
      FactorsLast(i + 1, n);
      assert A(i) * (Factors(i + 1, n) * A(n)) == A(i) * Factors(i + 1, n) * A(n) by {
        Reassociate(A(i), Factors(i + 1, n), A(n));
      }
    } else {
      assert Factors(n + 1, n + 1) == 1;
    }
  }

  lemma Reassociate(a: int, b: int, c: int)
    ensures a * (b * c) == a * b * c
  {
  }

  lemma {:induction false} CarriedLast(i: nat, n: nat, perLane: bool)
    requires i <= n < 4
    ensures Carried(i, n + 1, perLane) == Carried(i, n, perLane) * A(n) + Addend(n, perLane)
    decreases n - i
  {
    hide A, Addend, Factors;
    if i < n {
      CarriedLast(i + 1, n, perLane);
      FactorsLast(i + 1, n);
      var b, f, c := Addend(i, perLane), Factors(i + 1, n), Carried(i + 1, n, perLane);
      Reassociate(b, f, A(n));
      Spread(b * f, c, A(n));
    } else {
      NoFactors(n + 1);
      assert Carried(n + 1, n + 1, perLane) == 0;
    }
  }

  lemma NoFactors(n: nat)
    requires n <= 4
    ensures Factors(n, n) == 1
  {
  }

  lemma Spread(x: int, y: int, a: int)
    ensures (x + y) * a == x * a + y * a
  {
  }

  /** Slope times root, plus a constant, plus the lane times the lane's slope: not yet cut to a word. */
  function Form(rounds: nat, root: int, lane: nat): int
    requires rounds <= 4
  {
    Factors(0, rounds) * root + Carried(0, rounds, false)
    + lane * (Factors(0, rounds) * 0x6D2B79F5 + Carried(0, rounds, true))
  }

  lemma FormNext(rounds: nat, root: int, lane: nat)
    requires rounds < 4
    ensures Form(rounds + 1, root, lane)
            == Form(rounds, root, lane) * A(rounds) + B(rounds) + lane * Odd(B(rounds))
  {
    hide A, B, Odd, Factors, Carried;
    FactorsLast(0, rounds);
    CarriedLast(0, rounds, false);
    CarriedLast(0, rounds, true);
    FormProduct(Factors(0, rounds), Carried(0, rounds, false), Carried(0, rounds, true), A(rounds),
                B(rounds), Odd(B(rounds)), root, lane);
  }

  lemma FormProduct(p: int, q: int, s: int, a: int, b: int, o: int, root: int, lane: int)
    ensures (p * a) * root + (q * a + b) + lane * ((p * a) * 0x6D2B79F5 + (s * a + o))
            == (p * root + q + lane * (p * 0x6D2B79F5 + s)) * a + b + lane * o
  {
    var t := p * 0x6D2B79F5 + s;
    assert (p * a) * 0x6D2B79F5 + (s * a + o) == t * a + o by {
      Spread(p * 0x6D2B79F5, s, a);
      Swap(p, a, 0x6D2B79F5);
    }
    Swap(p, a, root);
    assert lane * (t * a + o) == lane * t * a + lane * o by {
      Reassociate(lane, t, a);
      Spread2(lane, t * a, o);
    }
    Spread(p * root + q, lane * t, a);
    Spread(p * root, q, a);
  }

  lemma Swap(p: int, a: int, x: int)
    ensures (p * a) * x == (p * x) * a
  {
  }

  lemma Spread2(a: int, x: int, y: int)
    ensures a * (x + y) == a * x + a * y
  {
  }

  lemma {:induction false} RoundsClosed(rounds: nat, root: int, lane: nat)
    requires rounds <= 4
    ensures Rounds(LaneAffine, rounds, lane, W(root + lane * 0x6D2B79F5)) == W(Form(rounds, root, lane))
  {
    hide Form, A, B, Odd, W, Round;
    var start := W(root + lane * 0x6D2B79F5);
    if rounds == 0 {
      FormStart(root, lane);
    } else {
      RoundsClosed(rounds - 1, root, lane);
      AffineRound(rounds - 1, lane, W(Form(rounds - 1, root, lane)));
      FormNext(rounds - 1, root, lane);
      WrapScale(Form(rounds - 1, root, lane), A(rounds - 1), B(rounds - 1) + lane * Odd(B(rounds - 1)));
    }
  }

  lemma FormStart(root: int, lane: nat)
    ensures Form(0, root, lane) == root + lane * 0x6D2B79F5
  {
  }

  /** The root of a state before it is cut to a word. */
  function Root(seed: nat, ordinal: nat, aware: bool): nat {
    if aware then seed + ordinal * 0x85EBCA77 + 0x243F6A89 else seed
  }

  lemma RootIs(seed: U32, ordinal: U32, aware: bool)
    ensures W(seed + PositionKey(ordinal, aware)) == W(Root(seed, ordinal, aware))
  {
    if aware {
      AddWrap(ordinal * 0x85EBCA77 + 0x243F6A89, seed);
      assert W(ordinal * POS_C + TENSOR_C) + seed == seed + PositionKey(ordinal, aware);
    }
  }

  /** The state of the affine family in closed form, for every seed, ordinal and lane. */
  lemma AffineState(rounds: nat, seed: U32, ordinal: U32, lane: nat, aware: bool)
    requires rounds <= 4
    ensures State(LaneAffine, rounds, seed, ordinal, lane, aware)
            == W(Form(rounds, Root(seed, ordinal, aware), lane))
  {
    hide Form, W, Rounds, PositionKey, Root;
    RootIs(seed, ordinal, aware);
    var root := Root(seed, ordinal, aware);
    AddWrap(root, lane * 0x6D2B79F5);
    RoundsClosed(rounds, root, lane);
  }

  /** A state of the xor family comes from the one a round earlier; with no rounds it is affine. */
  lemma XorState(rounds: nat, seed: U32, ordinal: U32, lane: nat, aware: bool)
    requires rounds <= 4
    ensures rounds == 0 ==>
              State(AffineXor, 0, seed, ordinal, lane, aware) == State(LaneAffine, 0, seed, ordinal, lane, aware)
    ensures rounds > 0 ==>
              var x := State(AffineXor, rounds - 1, seed, ordinal, lane, aware);
              var mixed := W(x * A(rounds - 1) + B(rounds - 1) + lane * Odd(B(rounds - 1)));
              State(AffineXor, rounds, seed, ordinal, lane, aware)
              == W(XorShift(mixed, K(rounds - 1)) * C(rounds - 1))
  {
    hide W, XorShift, A, B, C, K, Odd, PositionKey, Round;
    if rounds > 0 {
      var x := State(AffineXor, rounds - 1, seed, ordinal, lane, aware);
      XorRoundIs(rounds - 1, lane, x);
      AffineRound(rounds - 1, lane, x);
    }
  }

  // ---------------------------------------------------------------- the jump family

  lemma {:induction false} IterateLast(n: nat, x: int)
    ensures Iterate(LCG_A, LCG_B, n + 1, x) == W(0x9E3779B1 * Iterate(LCG_A, LCG_B, n, x) + 0x7F4A7C15)
    decreases n
  {
    if n == 0 {
      AffineWrap(LCG_A, LCG_B, x);
    } else {
      IterateLast(n - 1, Affine(LCG_A, LCG_B, x));
    }
  }

  /** In the jump family the first lane is one step from the root, every further lane one step on,
      and a round does nothing but move all lanes one step on. */
  lemma JumpState(rounds: nat, seed: U32, ordinal: U32, lane: nat, aware: bool)
    requires rounds <= 4
    ensures State(LcgJump, 0, seed, ordinal, 0, aware)
            == W(0x9E3779B1 * Root(seed, ordinal, aware) + 0x7F4A7C15)
    ensures State(LcgJump, rounds, seed, ordinal, lane + 1, aware)
            == W(0x9E3779B1 * State(LcgJump, rounds, seed, ordinal, lane, aware) + 0x7F4A7C15)
    ensures rounds > 0 ==> State(LcgJump, rounds, seed, ordinal, lane, aware)
                           == State(LcgJump, rounds - 1, seed, ordinal, lane + 1, aware)
  {
    hide Iterate, PositionKey, Root, W;
    var root := W(seed + PositionKey(ordinal, aware));
    IterateLast(lane + 1 + rounds, root);
    RootIs(seed, ordinal, aware);
    FirstStep(Root(seed, ordinal, aware));
  }

  lemma FirstStep(root: int)
    ensures Iterate(LCG_A, LCG_B, 1, W(root)) == W(0x9E3779B1 * root + 0x7F4A7C15)
  {
    AffineWrap(LCG_A, LCG_B, root);
    assert Iterate(LCG_A, LCG_B, 1, W(root)) == Iterate(LCG_A, LCG_B, 0, Affine(LCG_A, LCG_B, W(root)));
  }

  // ---------------------------------------------------------------- what is stored

  /** The value of a word read as a two's complement number. */
  function Signed(state: U32): int {
    if state < 0x8000_0000 then state else state - 0x1_0000_0000
  }

  /** What is stored is the scale times a multiple of 2^-15: the signed state over 2^16, rounded down. */
  lemma StoredIs(shape: Shape, seed: U32, ordinal: U32, lane: nat, scale: real)
    requires shape.Valid()
    ensures var state := State(shape.family, shape.rounds, seed, ordinal, lane, true);
            && 0x1_0000 * Top(state) <= Signed(state) < 0x1_0000 * Top(state) + 0x1_0000
            && Stored(shape, seed, ordinal, lane, scale) == Top(state) as real / 32768.0 * scale
  {
    hide State;
  }
}
