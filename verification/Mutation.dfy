/**
 The traceable generators: a seed, a segment ordinal and a lane determine a 32-bit state
 through up to four invertible rounds, and the reverse procedure recovers the seed.
 */
module Mutation {
  import opened Common
  import opened Words
  import opened Jump

  datatype Family = LcgJump | LaneAffine | AffineXor

  const LANE_C: U32 := 0x6D2B79F5
  const POS_C: U32 := 0x85EBCA77
  const TENSOR_C: U32 := 0x243F6A89

  function A(round: nat): (a: U32)
    requires round < 4
    ensures a % 2 == 1
  {
    [0x9E3779B1, 0x85EBCA77, 0xC2B2AE3D, 0x27D4EB2F][round]
  }

  function B(round: nat): U32
    requires round < 4
  {
    [0x7F4A7C15, 0x165667B1, 0xD3A2646D, 0xFD7046C5][round]
  }

  function C(round: nat): (c: U32)
    requires round < 4
    ensures c % 2 == 1
  {
    [0x94D049BB, 0x369DEA0F, 0x7FEB352D, 0x846CA68B][round]
  }

  function K(round: nat): (k: nat)
    requires round < 4
    ensures k >= 1
  {
    [7, 11, 9, 13][round]
  }

  /** b | 1 */
  function OrOne(b: nat): nat {
    if b % 2 == 1 then b else b + 1
  }

  function PositionKey(ordinal: U32, aware: bool): U32 {
    if aware then W(ordinal * POS_C + TENSOR_C) else 0
  }

  /** The offset one round adds in one lane. */
  function LaneAdd(round: nat, lane: nat): nat
    requires round < 4
  {
    B(round) + lane * OrOne(B(round))
  }

  function Round(family: Family, round: nat, lane: nat, state: U32): U32
    requires round < 4
  {
    var mixed := W(state * A(round) + LaneAdd(round, lane));
    if family.AffineXor? then W(XorShift(mixed, K(round)) * C(round)) else mixed
  }

  function Rounds(family: Family, rounds: nat, lane: nat, state: U32): U32
    requires rounds <= 4
  {
    if rounds == 0 then state
    else Round(family, rounds - 1, lane, Rounds(family, rounds - 1, lane, state))
  }

  /** The state, given the seed combined with the position. */
  function FromRoot(family: Family, rounds: nat, lane: nat, root: U32): U32
    requires rounds <= 4
  {
    if family.LcgJump? then Iterate(LCG_A, LCG_B, lane + 1 + rounds, root)
    else Rounds(family, rounds, lane, W(root + lane * LANE_C))
  }

  function State(family: Family, rounds: nat, seed: U32, ordinal: U32, lane: nat, aware: bool): U32
    requires rounds <= 4
  {
    FromRoot(family, rounds, lane, W(seed + PositionKey(ordinal, aware)))
  }

  /** The forward loop over rounds; the jump family uses its jump coefficients instead. */
  method IntegerState(family: Family, rounds: nat, seed: U32, ordinal: U32, lane: nat, aware: bool)
    returns (state: U32)
    requires rounds <= 4
    ensures state == State(family, rounds, seed, ordinal, lane, aware)
  {
    hide Affine, Iterate, Round;
    var root := W(seed + PositionKey(ordinal, aware));
    if family.LcgJump? {
      var jumpA, jumpB := AffineJump(LCG_A, LCG_B, lane + 1 + rounds);
      AffineBody(jumpA, jumpB, root);
      return W(root * jumpA + jumpB);
    }
    state := W(root + lane * LANE_C);
    for index := 0 to rounds
      invariant state == Rounds(family, index, lane, W(root + lane * LANE_C))
    {
      RoundBody(family, index, lane, state);
      state := W(state * A(index) + LaneAdd(index, lane));
      if family.AffineXor? {
        state := XorShift(state, K(index));
        state := W(state * C(index));
      }
    }
  }

  lemma AffineBody(a: nat, b: nat, x: nat)
    ensures Affine(a, b, x) == W(x * a + b)
  {
  }

  lemma RoundBody(family: Family, round: nat, lane: nat, state: U32)
    requires round < 4
    ensures var mixed := W(state * A(round) + LaneAdd(round, lane));
            Round(family, round, lane, state)
            == if family.AffineXor? then W(XorShift(mixed, K(round)) * C(round)) else mixed
  {
  }

  // ---------------------------------------------------------------- undoing rounds

  function RoundBack(family: Family, round: nat, lane: nat, state: U32): U32
    requires round < 4
  {
    var mixed := if family.AffineXor? then UndoXor(W(state * Inv(C(round))), K(round)) else state;
    W((mixed - W(LaneAdd(round, lane))) * Inv(A(round)))
  }

  /** Undoing x -> c*x and x -> a*x + add on words. */
  lemma ScaleUndo(c: nat, x: U32)
    requires c % 2 == 1
    ensures W(W(x * c) * Inv(c)) == x && W(W(x * Inv(c)) * c) == x
  {
    hide W, Inv;
    var w := Inv(c);
    AffineUndo(c, w, 0, x);
    AffineRedo(c, w, 0, x);
    WordId(x);
    assert c * x + 0 == x * c && (x - 0) * w == x * w;
    assert c * W(x * w) + 0 == W(x * w) * c;
  }

  /** An offset and its word add the same. */
  lemma SameOffset(a: nat, x: int, add: nat)
    ensures W(x * a + add) == W(a * x + W(add))
  {
    var k := Quotient(add);
    assert x * a + add == a * x + W(add) + M * k;
    Shifted(a * x + W(add), k);
  }

  lemma AddWrapped(a: nat, w: nat, add: nat, x: U32)
    requires W(a * w) == 1
    ensures W((W(x * a + add) - W(add)) * w) == x
    ensures W(W((x - W(add)) * w) * a + add) == x
  {
    hide W;
    SameOffset(a, x, add);
    AffineUndo(a, w, W(add), x);
    AffineRedo(a, w, W(add), x);
    SameOffset(a, W((x - W(add)) * w), add);
    WordId(x);
  }

  lemma RoundUndone(family: Family, round: nat, lane: nat, state: U32)
    requires round < 4
    ensures RoundBack(family, round, lane, Round(family, round, lane, state)) == state
    ensures Round(family, round, lane, RoundBack(family, round, lane, state)) == state
  {
    hide W, Inv, LaneAdd, UndoXor, XorShift, A, B, C, K;
    var a, add := A(round), LaneAdd(round, lane);
    var inv := Inv(a);
    AddWrapped(a, inv, add, state);
    if family.AffineXor? {
      var mixed := W(state * a + add);
      UndoXorInverts(mixed, K(round));
      ScaleUndo(C(round), XorShift(mixed, K(round)));
      var back := UndoXor(W(state * Inv(C(round))), K(round));
      AddWrapped(a, inv, add, back);
      XorShiftInverts(W(state * Inv(C(round))), K(round));
      ScaleUndo(C(round), state);
    }
  }

  /** Undoing all rounds, last round first. */
  function RoundsBack(family: Family, rounds: nat, lane: nat, state: U32): U32
    requires rounds <= 4
  {
    if rounds == 0 then state
    else RoundsBack(family, rounds - 1, lane, RoundBack(family, rounds - 1, lane, state))
  }

  lemma {:induction false} RoundsUndone(family: Family, rounds: nat, lane: nat, state: U32)
    requires rounds <= 4
    ensures RoundsBack(family, rounds, lane, Rounds(family, rounds, lane, state)) == state
    ensures Rounds(family, rounds, lane, RoundsBack(family, rounds, lane, state)) == state
  {
    hide Round, RoundBack;
    if rounds > 0 {
      RoundUndone(family, rounds - 1, lane, Rounds(family, rounds - 1, lane, state));
      RoundUndone(family, rounds - 1, lane, state);
      RoundsUndone(family, rounds - 1, lane, state);
      RoundsUndone(family, rounds - 1, lane, RoundBack(family, rounds - 1, lane, state));
    }
  }

  // ---------------------------------------------------------------- each lane map is a bijection

  lemma AffineInjective(a: nat, b: nat, x: U32, y: U32)
    requires a % 2 == 1 && Affine(a, b, x) == Affine(a, b, y)
    ensures x == y
  {
    hide W, Inv;
    AffineUndo(a, Inv(a), b, x);
    AffineUndo(a, Inv(a), b, y);
    WordId(x);
    WordId(y);
  }

  lemma {:induction false} IterateInjective(a: nat, b: nat, n: nat, x: U32, y: U32)
    requires a % 2 == 1 && Iterate(a, b, n, x) == Iterate(a, b, n, y)
    ensures x == y
    decreases n
  {
    hide Affine;
    if n > 0 {
      IterateInjective(a, b, n - 1, Affine(a, b, x), Affine(a, b, y));
      AffineInjective(a, b, x, y);
    }
  }

  lemma AddInjective(x: U32, y: U32, c: int)
    requires W(x + c) == W(y + c)
    ensures x == y
  {
  }

  lemma FromRootInjective(family: Family, rounds: nat, lane: nat, x: U32, y: U32)
    requires rounds <= 4 && FromRoot(family, rounds, lane, x) == FromRoot(family, rounds, lane, y)
    ensures x == y
  {
    hide Iterate, Affine, Rounds, RoundsBack;
    if family.LcgJump? {
      IterateInjective(LCG_A, LCG_B, lane + 1 + rounds, x, y);
    } else {
      RoundsUndone(family, rounds, lane, W(x + lane * LANE_C));
      RoundsUndone(family, rounds, lane, W(y + lane * LANE_C));
      AddInjective(x, y, lane * LANE_C);
    }
  }

  /** Different seeds give different states in every lane. */
  lemma StateInjective(family: Family, rounds: nat, s: U32, t: U32, ordinal: U32, lane: nat, aware: bool)
    requires rounds <= 4
    requires State(family, rounds, s, ordinal, lane, aware) == State(family, rounds, t, ordinal, lane, aware)
    ensures s == t
  {
    hide FromRoot;
    var pos := PositionKey(ordinal, aware);
    FromRootInjective(family, rounds, lane, W(s + pos), W(t + pos));
    AddInjective(s, t, pos);
  }

  /** With position keys, different ordinals give different states in every lane. */
  lemma OrdinalInjective(family: Family, rounds: nat, seed: U32, o: U32, p: U32, lane: nat)
    requires rounds <= 4
    requires State(family, rounds, seed, o, lane, true) == State(family, rounds, seed, p, lane, true)
    ensures o == p
  {
    hide FromRoot;
    var x, y := PositionKey(o, true), PositionKey(p, true);
    FromRootInjective(family, rounds, lane, W(seed + x), W(seed + y));
    AddInjective(x, y, seed);
    PositionInjective(o, p);
  }

  lemma PositionInjective(o: U32, p: U32)
    requires PositionKey(o, true) == PositionKey(p, true)
    ensures o == p
  {
    AffineBody(POS_C, TENSOR_C, o);
    AffineBody(POS_C, TENSOR_C, p);
    hide *;
    PositionBody(o);
    PositionBody(p);
    AffineInjective(POS_C, TENSOR_C, o, p);
  }

  lemma PositionBody(o: U32)
    ensures PositionKey(o, true) == W(o * POS_C + TENSOR_C) && POS_C % 2 == 1
  {
  }

  lemma SubtractUndo(state: U32, c: int)
    ensures W(W(state - c) + c) == state
  {
  }

  /** The reverse loop: it recovers a seed for any state, and by injectivity the only one. */
  method ReverseIntegerState(family: Family, rounds: nat, target: U32, ordinal: U32, lane: nat, aware: bool)
    returns (seed: U32)
    requires rounds <= 4
    ensures State(family, rounds, seed, ordinal, lane, aware) == target
    ensures forall s: U32 :: State(family, rounds, s, ordinal, lane, aware) == target ==> s == seed
  {
    hide Affine, Iterate, Round, RoundBack, Inv;
    var pos := PositionKey(ordinal, aware);
    var root: U32 := 0;
    if family.LcgJump? {
      var jumpA, jumpB := AffineJump(LCG_A, LCG_B, lane + 1 + rounds);
      root := W((target - jumpB) * Inv(jumpA));
      JumpBack(jumpA, jumpB, target);
    } else {
      var state: U32 := target;
      RoundsUndone(family, rounds, lane, target);
      for index := rounds downto 0
        invariant Rounds(family, rounds, lane, RoundsBack(family, index, lane, state)) == target
      {
        RoundBackBody(family, index, lane, state);
        if family.AffineXor? {
          state := W(state * Inv(C(index)));
          state := UndoXorRight(state, K(index));
        }
        state := W((state - W(LaneAdd(index, lane))) * Inv(A(index)));
      }
      root := W(state - lane * LANE_C);
      SubtractUndo(state, lane * LANE_C);
    }
    seed := W(root - pos);
    assert FromRoot(family, rounds, lane, root) == target;
    OnlySeed(family, rounds, target, ordinal, lane, aware, root);
  }

  /** The root of a state gives the one seed that reaches it. */
  lemma OnlySeed(family: Family, rounds: nat, target: U32, ordinal: U32, lane: nat, aware: bool, root: U32)
    requires rounds <= 4 && FromRoot(family, rounds, lane, root) == target
    ensures var seed := W(root - PositionKey(ordinal, aware));
            && State(family, rounds, seed, ordinal, lane, aware) == target
            && forall s: U32 :: State(family, rounds, s, ordinal, lane, aware) == target ==> s == seed
  {
    hide FromRoot, PositionKey, W;
    var pos := PositionKey(ordinal, aware);
    SubtractUndo(root, pos);
    forall s: U32 | State(family, rounds, s, ordinal, lane, aware) == target
      ensures s == W(root - pos)
    {
      StateInjective(family, rounds, s, W(root - pos), ordinal, lane, aware);
    }
  }

  lemma JumpBack(a: U32, b: U32, target: U32)
    requires a % 2 == 1
    ensures Affine(a, b, W((target - b) * Inv(a))) == target
  {
    hide W, Inv;
    AffineRedo(a, Inv(a), b, target);
    WordId(target);
  }

  lemma RoundBackBody(family: Family, round: nat, lane: nat, state: U32)
    requires round < 4
    ensures var mixed := if family.AffineXor? then UndoXor(W(state * Inv(C(round))), K(round)) else state;
            RoundBack(family, round, lane, state) == W((mixed - W(LaneAdd(round, lane))) * Inv(A(round)))
  {
    hide W, Inv, UndoXor, LaneAdd, A, C, K;
  }
}
