/**
 The block transform as the benchmark runs it: each block is copied, rewritten in place by
 butterfly passes of doubling width, and normalised.
 */
module HadamardInPlace {
  import opened Common
  import opened Hadamard

  /** The normalised transform of consecutive blocks of 2^k entries. */
  function Blocks(k: nat, norm: real, s: seq<real>): (r: seq<real>)
    requires Splits(|s|, Power2(k))
    ensures |r| == |s|
  {
    if s == [] then []
    else Scale(norm, Wht(k, s[..Power2(k)])) + Blocks(k, norm, s[Power2(k)..])
  }

  // ---------------------------------------------------------------- its laws

  /** `norm` is the reciprocal square root of the block length. */
  ghost predicate Normalises(k: nat, norm: real) {
    Mul(Mul(norm, norm), Power2(k) as real) == 1.0
  }

  lemma BlockTwice(k: nat, norm: real, s: seq<real>)
    requires |s| == Power2(k) && Normalises(k, norm)
    ensures Scale(norm, Wht(k, Scale(norm, Wht(k, s)))) == s
  {
    hide Mul, Wht, Power2;
    var c := Power2(k) as real;
    WhtScale(k, norm, Wht(k, s));
    WhtTwice(k, s);
    ScaleScale(norm, c, s);
    ScaleScale(norm, Mul(norm, c), s);
    MulMul(norm, norm, c);
    ScaleOne(s);
  }

  lemma BlockEnergy(k: nat, norm: real, s: seq<real>)
    requires |s| == Power2(k) && Normalises(k, norm)
    ensures SumSq(Scale(norm, Wht(k, s))) == SumSq(s)
  {
    hide Mul, Wht, Power2, SumSq;
    var c := Power2(k) as real;
    SumSqScale(norm, Wht(k, s));
    WhtEnergy(k, s);
    MulMul(Mul(norm, norm), c, SumSq(s));
    MulOne(SumSq(s));
  }

  lemma MulOne(x: real)
    ensures Mul(1.0, x) == x
  {
  }

  lemma BlocksUnfold(k: nat, norm: real, s: seq<real>)
    requires s != [] && Splits(|s|, Power2(k))
    ensures Splits(|s| - Power2(k), Power2(k))
    ensures Blocks(k, norm, s) == Scale(norm, Wht(k, s[..Power2(k)])) + Blocks(k, norm, s[Power2(k)..])
  {
  }

  lemma BlocksNothing(k: nat, norm: real)
    ensures Splits(0, Power2(k)) && Blocks(k, norm, []) == []
  {
  }


  /** The normalised transform is its own inverse. */
  lemma {:induction false} BlocksTwice(k: nat, norm: real, s: seq<real>)
    requires Splits(|s|, Power2(k)) && Normalises(k, norm)
    ensures Blocks(k, norm, Blocks(k, norm, s)) == s
    decreases |s|
  {
    hide *;
    if s == [] {
      BlocksNothing(k, norm);
    } else {
      var n := Power2(k);
      var t := Blocks(k, norm, s);
      BlocksUnfold(k, norm, s);
      BlocksUnfold(k, norm, t);
      assert t[..n] == Scale(norm, Wht(k, s[..n])) && t[n..] == Blocks(k, norm, s[n..]);
      BlockTwice(k, norm, s[..n]);
      BlocksTwice(k, norm, s[n..]);
      assert s == s[..n] + s[n..];
    }
  }

  /** The normalised transform keeps the sum of squares. */
  lemma {:induction false} BlocksEnergy(k: nat, norm: real, s: seq<real>)
    requires Splits(|s|, Power2(k)) && Normalises(k, norm)
    ensures SumSq(Blocks(k, norm, s)) == SumSq(s)
    decreases |s|
  {
    hide Normalises, Power2, Wht, SumSq;
    if s != [] {
      var n := Power2(k);
      BlockEnergy(k, norm, s[..n]);
      BlocksEnergy(k, norm, s[n..]);
      SumSqAppend(Scale(norm, Wht(k, s[..n])), Blocks(k, norm, s[n..]));
      SumSqAppend(s[..n], s[n..]);
      assert s == s[..n] + s[n..];
    }
  }

  // ---------------------------------------------------------------- rewriting a stretch of a buffer

  /** `s` with the entries from `at` replaced by `t`. */
  function Patch(s: seq<real>, at: nat, t: seq<real>): (r: seq<real>)
    requires at + |t| <= |s|
    ensures |r| == |s|
  {
    s[..at] + t + s[at + |t|..]
  }

  lemma PatchSlice(s: seq<real>, at: nat, t: seq<real>)
    requires at + |t| <= |s|
    ensures Patch(s, at, t)[at..at + |t|] == t
    ensures Patch(s, at, t)[at + |t|..] == s[at + |t|..]
    ensures Patch(s, at, t)[..at] == s[..at]
  {
  }

  lemma PatchNothing(s: seq<real>, at: nat)
    requires at <= |s|
    ensures Patch(s, at, []) == s
  {
  }

  lemma PatchSelf(s: seq<real>, at: nat, n: nat)
    requires at + n <= |s|
    ensures Patch(s, at, s[at..at + n]) == s
  {
  }

  lemma PatchOver(s: seq<real>, at: nat, t: seq<real>, u: seq<real>)
    requires at + |t| <= |s| && |t| == |u|
    ensures Patch(Patch(s, at, t), at, u) == Patch(s, at, u)
  {
  }

  lemma PatchExtend(s: seq<real>, at: nat, t: seq<real>, u: seq<real>)
    requires at + |t| + |u| <= |s|
    ensures Patch(Patch(s, at, t), at + |t|, u) == Patch(s, at, t + u)
  {
  }

  // ---------------------------------------------------------------- the loops

  lemma PatchByEntries(now: seq<real>, s: seq<real>, at: nat, t: seq<real>)
    requires at + |t| <= |s| == |now|
    requires forall p :: at <= p < at + |t| ==> now[p] == t[p - at]
    requires forall p :: 0 <= p < at || at + |t| <= p < |s| ==> now[p] == s[p]
    ensures now == Patch(s, at, t)
  {
    forall p | 0 <= p < |s|
      ensures now[p] == Patch(s, at, t)[p]
    {
    }
  }

  lemma ButterflyEntries(a: seq<real>, b: seq<real>, i: nat)
    requires i < |a| == |b|
    ensures Butterfly(a, b)[i] == a[i] + b[i] && Butterfly(a, b)[|a| + i] == a[i] - b[i]
  {
  }

  /** The first `lane` entries of both runs from `at` hold those of `t`, the rest those of `start`. */
  ghost predicate LanesDone(now: seq<real>, start: seq<real>, t: seq<real>, at: nat, width: nat, lane: nat)
    requires at + 2 * width <= |start| == |now| && |t| == 2 * width && lane <= width
  {
    && (forall k :: 0 <= k < lane ==> now[at..][k] == t[k] && now[at + width..][k] == t[width..][k])
    && (forall k :: lane <= k < width ==>
          now[at..][k] == start[at..][k] && now[at + width..][k] == start[at + width..][k])
    && now[..at] == start[..at] && now[at + 2 * width..] == start[at + 2 * width..]
  }

  lemma NoLanes(start: seq<real>, t: seq<real>, at: nat, width: nat)
    requires at + 2 * width <= |start| && |t| == 2 * width
    ensures LanesDone(start, start, t, at, width, 0)
  {
  }

  lemma LaneUntouched(now: seq<real>, start: seq<real>, t: seq<real>, at: nat, width: nat, lane: nat)
    requires at + 2 * width <= |start| == |now| && |t| == 2 * width && lane < width
    requires LanesDone(now, start, t, at, width, lane)
    ensures now[at + lane] == start[at..at + width][lane]
    ensures now[at + lane + width] == start[at + width..at + 2 * width][lane]
  {
    assert now[at..][lane] == start[at..][lane] && now[at + width..][lane] == start[at + width..][lane];
  }

  /** What the loop writes for a lane is what the butterfly of the starting runs holds there. */
  lemma LaneValues(now: seq<real>, start: seq<real>, t: seq<real>, at: nat, width: nat, lane: nat)
    requires at + 2 * width <= |start| == |now| && |t| == 2 * width && lane < width
    requires t == Butterfly(start[at..at + width], start[at + width..at + 2 * width])
    requires LanesDone(now, start, t, at, width, lane)
    ensures now[at + lane] + now[at + lane + width] == t[lane]
    ensures now[at + lane] - now[at + lane + width] == t[width + lane]
  {
    hide Butterfly, LanesDone;
    LaneUntouched(now, start, t, at, width, lane);
    ButterflyEntries(start[at..at + width], start[at + width..at + 2 * width], lane);
  }

  lemma LaneStep(was: seq<real>, start: seq<real>, t: seq<real>, at: nat, width: nat, lane: nat, now: seq<real>)
    requires at + 2 * width <= |start| == |was| && |t| == 2 * width && lane < width
    requires LanesDone(was, start, t, at, width, lane)
    requires now == was[at + lane := t[lane]][at + lane + width := t[width + lane]]
    ensures LanesDone(now, start, t, at, width, lane + 1)
  {
    forall k | 0 <= k < width && k != lane
      ensures now[at..][k] == was[at..][k] && now[at + width..][k] == was[at + width..][k]
    {
    }
  }

  lemma LanesAll(now: seq<real>, start: seq<real>, t: seq<real>, at: nat, width: nat)
    requires at + 2 * width <= |start| == |now| && |t| == 2 * width
    requires LanesDone(now, start, t, at, width, width)
    ensures now == Patch(start, at, t)
  {
    forall p | at <= p < at + |t|
      ensures now[p] == t[p - at]
    {
      if p < at + width {
        assert now[at..][p - at] == t[p - at];
      } else {
        assert now[at + width..][p - at - width] == t[width..][p - at - width];
      }
    }
    forall p | 0 <= p < at || at + |t| <= p < |start|
      ensures now[p] == start[p]
    {
      if p < at {
        assert now[..at][p] == start[..at][p];
      } else {
        assert now[at + 2 * width..][p - at - 2 * width] == start[at + 2 * width..][p - at - 2 * width];
      }
    }
    PatchByEntries(now, start, at, t);
  }

  /** The lane loop: one butterfly on two neighbouring runs. */
  method ButterflyRuns(output: array<real>, at: nat, width: nat)
    requires at + 2 * width <= output.Length
    modifies output
    ensures output[..] == Patch(old(output[..]), at,
              Butterfly(old(output[at..at + width]), old(output[at + width..at + 2 * width])))
  {
    ghost var start := output[..];
    ghost var t := Butterfly(output[at..at + width], output[at + width..at + 2 * width]);
    hide *;
    NoLanes(start, t, at, width);
    for lane := 0 to width
      invariant LanesDone(output[..], start, t, at, width, lane)
    {
      ghost var was := output[..];
      LaneValues(was, start, t, at, width, lane);
      var a, b := output[at + lane], output[at + lane + width];
      output[at + lane] := a + b;
      ghost var half := was[at + lane := t[lane]];
      assert output[..] == half;
      output[at + lane + width] := a - b;
      assert output[..] == half[at + lane + width := t[width + lane]];
      LaneStep(was, start, t, at, width, lane, output[..]);
    }
    LanesAll(output[..], start, t, at, width);
  }

  lemma PassUnfold(s: seq<real>, width: nat)
    requires width > 0 && s != [] && Splits(|s|, 2 * width)
    ensures Splits(|s| - 2 * width, 2 * width)
    ensures Pass(s, width) == Butterfly(s[..width], s[width..2 * width]) + Pass(s[2 * width..], width)
  {
  }

  /** The loop over `first`: one pass of butterflies over the block at `base`. */
  method PassInPlace(output: array<real>, base: nat, block: nat, width: nat)
    requires width > 0 && Splits(block, 2 * width) && base + block <= output.Length
    modifies output
    ensures output[..] == Patch(old(output[..]), base, Pass(old(output[base..base + block]), width))
  {
    hide *;
    var first := 0;
    ghost var start := output[..];
    ghost var done: seq<real> := [];
    NotPassed(start, base, block, width);
    while first < block
      invariant PassedTo(output[..], start, base, block, width, first, done)
      invariant first <= block
    {
      PassStep(output[..], start, base, block, width, first, done);
      done := done + Butterfly(output[base + first..base + first + width],
                               output[base + first + width..base + first + 2 * width]);
      ButterflyRuns(output, base + first, width);
      first := first + 2 * width;
    }
    AllPassed(output[..], start, base, block, width, done);
  }

  /** The passes over the first `first` entries of the block are done and hold `done`. */
  ghost predicate PassedTo(now: seq<real>, start: seq<real>, base: nat, block: nat, width: nat, first: nat,
                           done: seq<real>)
    requires width > 0 && base + block <= |start|
  {
    && first <= block && Splits(block, 2 * width) && Splits(block - first, 2 * width) && |done| == first
    && now == Patch(start, base, done)
    && done + Pass(start[base + first..base + block], width) == Pass(start[base..base + block], width)
  }

  lemma NotPassed(start: seq<real>, base: nat, block: nat, width: nat)
    requires width > 0 && base + block <= |start| && Splits(block, 2 * width)
    ensures PassedTo(start, start, base, block, width, 0, [])
  {
    hide Pass, Splits, Patch;
    PatchNothing(start, base);
    var all := Pass(start[base..base + block], width);
    assert [] + all == all;
  }

  lemma AllPassed(now: seq<real>, start: seq<real>, base: nat, block: nat, width: nat, done: seq<real>)
    requires width > 0 && base + block <= |start| && PassedTo(now, start, base, block, width, block, done)
    ensures now == Patch(start, base, Pass(start[base..base + block], width))
  {
    hide Pass, Splits, Patch;
    PassNothing(width);
    assert start[base + block..base + block] == [] && done + [] == done;
  }

  /** The next butterfly reads runs that are still untouched, and extends what is done. */
  lemma PassStep(was: seq<real>, start: seq<real>, base: nat, block: nat, width: nat, first: nat,
                 done: seq<real>)
    requires width > 0 && base + block <= |start| && first < block
    requires PassedTo(was, start, base, block, width, first, done)
    ensures first + 2 * width <= block && |was| == |start|
    ensures var at := base + first;
            var next := Butterfly(was[at..at + width], was[at + width..at + 2 * width]);
            PassedTo(Patch(was, at, next), start, base, block, width, first + 2 * width, done + next)
  {
    hide Pass, Splits, Patch, Butterfly;
    var rest, at := start[base + first..base + block], base + first;
    PassUnfold(rest, width);
    var next := Butterfly(rest[..width], rest[width..2 * width]);
    PatchSlice(start, base, done);
    assert was[at..] == start[at..];
    RunsOf(was, start, at, base + block, width);
    PatchExtend(start, base, done, next);
    assert done + (next + Pass(rest[2 * width..], width)) == done + next + Pass(rest[2 * width..], width);
  }

  /** The two runs and the remainder of the part of a buffer that is still untouched. */
  lemma RunsOf(now: seq<real>, start: seq<real>, at: nat, end: nat, width: nat)
    requires at + 2 * width <= end <= |now| == |start| && now[at..] == start[at..]
    ensures start[at..end][..width] == now[at..at + width]
    ensures start[at..end][width..2 * width] == now[at + width..at + 2 * width]
    ensures start[at..end][2 * width..] == start[at + 2 * width..end]
  {
    forall p | at <= p < |now|
      ensures now[p] == start[p]
    {
      assert now[at..][p - at] == start[at..][p - at];
    }
    forall i | 0 <= i < width
      ensures start[at..end][width..2 * width][i] == now[at + width..at + 2 * width][i]
    {
      assert start[at..end][width + i] == start[at + width + i] == now[at + width + i];
    }
  }

  lemma PassNothing(width: nat)
    requires width > 0
    ensures Splits(0, 2 * width) && Pass([], width) == []
  {
  }

  lemma {:induction false} FinerSplit(k: nat, j: nat)
    requires j <= k
    ensures Splits(Power2(k), Power2(j))
    decreases k - j
  {
    if j == k {
      assert Splits(0, Power2(j));
    } else {
      FinerSplit(k, j + 1);
      SplitsFiner(Power2(k), Power2(j));
    }
  }

  lemma {:induction false} Growing(j: nat, k: nat)
    requires j < k
    ensures Power2(j) < Power2(k)
    decreases k
  {
    if j < k - 1 {
      Growing(j, k - 1);
    }
  }

  lemma FirstWidth(k: nat, s: seq<real>)
    requires |s| == Power2(k)
    ensures Power2(0) == 1 && Splits(|s|, Power2(0)) && Chunks(0, s) == s
  {
    FinerSplit(k, 0);
    ChunksOfOne(s);
  }

  lemma NextWidth(k: nat, s: seq<real>, j: nat)
    requires |s| == Power2(k) && j <= k && Power2(j) < Power2(k) && Splits(|s|, Power2(j))
    ensures j < k && Power2(j + 1) == 2 * Power2(j)
    ensures Splits(|s|, Power2(j + 1)) && Pass(Chunks(j, s), Power2(j)) == Chunks(j + 1, s)
  {
    FinerSplit(k, j + 1);
    PassDoubles(j, s);
  }

  lemma LastWidth(k: nat, s: seq<real>, j: nat)
    requires |s| == Power2(k) && j <= k && Power2(j) >= Power2(k) && Splits(|s|, Power2(j))
    ensures Chunks(j, s) == Wht(k, s)
  {
    if j < k {
      Growing(j, k);
    } else {
      OneChunk(k, s);
    }
  }

  /** The loop over widths: the whole transform of one block. */
  method TransformInPlace(output: array<real>, base: nat, block: nat, ghost k: nat)
    requires block == Power2(k) && base + block <= output.Length
    modifies output
    ensures output[..] == Patch(old(output[..]), base, Wht(k, old(output[base..base + block])))
  {
    hide *;
    var width := 1;
    ghost var j, start := 0, output[..];
    ghost var s := start[base..base + block];
    FirstWidth(k, s);
    PatchSelf(start, base, block);
    while width < block
      invariant j <= k && width == Power2(j) && Splits(block, Power2(j))
      invariant output[..] == Patch(start, base, Chunks(j, s))
      decreases k - j
    {
      NextWidth(k, s, j);
      PatchSlice(start, base, Chunks(j, s));
      assert output[base..base + block] == output[..][base..base + block];
      PatchOver(start, base, Chunks(j, s), Chunks(j + 1, s));
      PassInPlace(output, base, block, width);
      width := width * 2;
      j := j + 1;
    }
    LastWidth(k, s, j);
  }

  /** The loop over blocks. `norm` stands for 1/sqrt(block). */
  method HadamardBlocks(input: array<real>, output: array<real>, count: nat, block: nat, norm: real, ghost k: nat)
    requires input != output && block == Power2(k) && Splits(count, block)
    requires count <= input.Length && count <= output.Length
    modifies output
    ensures output[..] == Patch(old(output[..]), 0, Blocks(k, norm, input[..count]))
  {
    hide *;
    var base := 0;
    ghost var source := input[..count];
    ghost var start, done, rest: seq<real> := output[..], [], source;
    PatchNothing(start, 0);
    while base < count
      invariant 0 <= base <= count && Splits(count - base, block)
      invariant |done| == base && rest == source[base..] && input[..count] == source
      invariant output[..] == Patch(start, 0, done)
      invariant done + Blocks(k, norm, rest) == Blocks(k, norm, source)
    {
      BlocksUnfold(k, norm, rest);
      ghost var chunk := rest[..block];
      assert chunk == source[base..base + block] == input[base..base + block];
      TransformBlock(input, output, base, block, norm, k, chunk);
      PatchExtend(start, 0, done, Scale(norm, Wht(k, chunk)));
      done, rest := done + Scale(norm, Wht(k, chunk)), rest[block..];
      base := base + block;
    }
    BlocksNothing(k, norm);
    assert rest == [] && done + [] == done;
  }

  /** One turn of the loop over blocks: copy, transform in place, normalise. */
  method TransformBlock(input: array<real>, output: array<real>, base: nat, block: nat, norm: real,
                        ghost k: nat, ghost chunk: seq<real>)
    requires input != output && block == Power2(k)
    requires base + block <= input.Length && base + block <= output.Length
    requires chunk == input[base..base + block]
    modifies output
    ensures output[..] == Patch(old(output[..]), base, Scale(norm, Wht(k, chunk)))
  {
    hide *;
    ghost var start := output[..];
    CopyBlock(input, output, base, block);
    PatchSlice(start, base, chunk);
    assert output[base..base + block] == output[..][base..base + block];
    TransformInPlace(output, base, block, k);
    PatchOver(start, base, chunk, Wht(k, chunk));
    PatchSlice(start, base, Wht(k, chunk));
    assert output[base..base + block] == output[..][base..base + block];
    ScaleInPlace(output, base, block, norm);
    PatchOver(start, base, Wht(k, chunk), Scale(norm, Wht(k, chunk)));
  }

  method CopyBlock(input: array<real>, output: array<real>, base: nat, block: nat)
    requires input != output && base + block <= input.Length && base + block <= output.Length
    modifies output
    ensures output[..] == Patch(old(output[..]), base, input[base..base + block])
  {
    for i := 0 to block
      invariant forall p :: base <= p < base + i ==> output[p] == input[p]
      invariant forall p :: 0 <= p < base || base + i <= p < output.Length ==> output[p] == old(output[p])
    {
      output[base + i] := input[base + i];
    }
  }

  method ScaleInPlace(output: array<real>, base: nat, block: nat, norm: real)
    requires base + block <= output.Length
    modifies output
    ensures output[..] == Patch(old(output[..]), base, Scale(norm, old(output[base..base + block])))
  {
    hide Mul;
    for i := 0 to block
      invariant forall p :: base <= p < base + i ==> output[p] == Mul(norm, old(output[p]))
      invariant forall p :: 0 <= p < base || base + i <= p < output.Length ==> output[p] == old(output[p])
    {
      output[base + i] := Mul(norm, output[base + i]);
    }
  }
}
