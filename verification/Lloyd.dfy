/** Lloyd iteration on a scalar codebook over the reals: nearest codes, cluster means, sort. */
module Lloyd {
  import opened Common
  import opened Sorting

  // ---------------------------------------------------------------- nearest codes

  function Abs(x: real): real {
    if x < 0.0 then -x else x
  }

  function Sq(x: real): real {
    x * x
  }

  /** The first of the `n` first levels that is nearest to `v`. */
  function NearestOf(v: real, levels: seq<real>, n: nat): (k: nat)
    requires 0 < n <= |levels|
    ensures k < n
  {
    if n == 1 then 0
    else
      var k := NearestOf(v, levels, n - 1);
      if Abs(v - levels[n - 1]) < Abs(v - levels[k]) then n - 1 else k
  }

  function Nearest(v: real, levels: seq<real>): (k: nat)
    requires |levels| > 0
    ensures k < |levels|
  {
    NearestOf(v, levels, |levels|)
  }

  lemma {:induction false} NearestIsLeast(v: real, levels: seq<real>, n: nat, j: nat)
    requires j < n <= |levels|
    ensures Abs(v - levels[NearestOf(v, levels, n)]) <= Abs(v - levels[j])
    ensures j < NearestOf(v, levels, n) ==>
              Abs(v - levels[NearestOf(v, levels, n)]) < Abs(v - levels[j])
  {
    hide Abs;
    if n > 1 {
      if j < n - 1 {
        NearestIsLeast(v, levels, n - 1, j);
      }
    }
  }

  lemma AbsSquares(a: real, b: real)
    requires Abs(a) <= Abs(b)
    ensures Sq(a) <= Sq(b)
  {
    SquareGrows(Abs(a), Abs(b));
    SquareOfAbs(a);
    SquareOfAbs(b);
  }

  lemma SquareOfAbs(a: real)
    ensures Sq(Abs(a)) == Sq(a) && Abs(a) >= 0.0
  {
  }

  lemma SquareGrows(a: real, b: real)
    requires 0.0 <= a <= b
    ensures Sq(a) <= Sq(b)
  {
    assert b * b - a * a == (b - a) * (b + a);
  }

  function Codes(values: seq<real>, levels: seq<real>): (codes: seq<nat>)
    requires |levels| > 0
    ensures |codes| == |values| && ValidCodes(codes, |levels|)
  {
    seq<nat>(|values|, i requires 0 <= i < |values| => Nearest(values[i], levels))
  }

  /** The codes as they are kept, one byte each. */
  function StoredCodes(values: seq<real>, levels: seq<real>): (codes: seq<nat>)
    requires |levels| > 0
    ensures |codes| == |values| && ValidCodes(codes, |levels|)
  {
    seq<nat>(|values|, i requires 0 <= i < |values| => Nearest(values[i], levels) % 256)
  }

  lemma StoredAreNearest(values: seq<real>, levels: seq<real>)
    requires 0 < |levels| <= 256
    ensures StoredCodes(values, levels) == Codes(values, levels)
  {
    hide Nearest;
  }

  ghost predicate AlwaysStoredExactly(count: nat) {
    forall values: seq<real>, levels: seq<real> :: |levels| == count && count > 0 ==>
      StoredCodes(values, levels) == Codes(values, levels)
  }

  function Counting(count: nat): (levels: seq<real>)
    ensures |levels| == count && forall i :: 0 <= i < count ==> levels[i] == i as real
  {
    seq(count, i => i as real)
  }

  /** A byte holds every nearest code if and only if there are at most 256 levels. */
  lemma StoredExactly(count: nat)
    ensures AlwaysStoredExactly(count) <==> count <= 256
  {
    hide Nearest;
    if count <= 256 {
      forall values: seq<real>, levels: seq<real> | |levels| == count && count > 0
        ensures StoredCodes(values, levels) == Codes(values, levels)
      {
        StoredAreNearest(values, levels);
      }
    } else {
      var levels := Counting(count);
      NearestIsLeast(256.0, levels, count, 256);
      assert Nearest(256.0, levels) == 256 by { ExactLevel(levels, count); }
      assert StoredCodes([256.0], levels)[0] == 0 && Codes([256.0], levels)[0] == 256;
    }
  }

  lemma ExactLevel(levels: seq<real>, count: nat)
    requires levels == Counting(count) && count > 256
    ensures Nearest(256.0, levels) == 256
  {
    hide NearestOf;
    NearestIsLeast(256.0, levels, count, 256);
  }

  predicate ValidCodes(codes: seq<nat>, count: nat) {
    forall i :: 0 <= i < |codes| ==> codes[i] < count
  }

  // ---------------------------------------------------------------- distortion

  /** The summed squared error of an assignment of values to levels. */
  function Distortion(values: seq<real>, codes: seq<nat>, levels: seq<real>): real
    requires |codes| == |values| && ValidCodes(codes, |levels|)
  {
    if values == [] then 0.0
    else Sq(values[0] - levels[codes[0]]) + Distortion(values[1..], codes[1..], levels)
  }

  /** One more value adds the square of its distance from its level. */
  lemma {:induction false} DistortionNext(values: seq<real>, codes: seq<nat>, levels: seq<real>, n: nat)
    requires |codes| == |values| && ValidCodes(codes, |levels|) && n < |values|
    ensures Distortion(values[..n + 1], codes[..n + 1], levels)
            == Distortion(values[..n], codes[..n], levels)
               + (values[n] - levels[codes[n]]) * (values[n] - levels[codes[n]])
    ensures Distortion(values[..0], codes[..0], levels) == 0.0
    decreases n
  {
    if n > 0 {
      DistortionNext(values[1..], codes[1..], levels, n - 1);
      assert values[..n + 1][1..] == values[1..][..n] && codes[..n + 1][1..] == codes[1..][..n];
      assert values[..n][1..] == values[1..][..n - 1] && codes[..n][1..] == codes[1..][..n - 1];
    } else {
      assert values[..1][1..] == [] && codes[..1][1..] == [];
    }
  }

  /** The summed squared error with every value at its nearest level. */
  function Error(values: seq<real>, levels: seq<real>): real
    requires |levels| > 0
  {
    Distortion(values, Codes(values, levels), levels)
  }

  /** The mean squared error with every value at its nearest level. */
  function Objective(values: seq<real>, levels: seq<real>): real
    requires |levels| > 0 && |values| > 0
  {
    Error(values, levels) / |values| as real
  }

  /** The mean squared error that the iteration reports, by the stored codes. */
  function Measured(values: seq<real>, levels: seq<real>): real
    requires |levels| > 0 && |values| > 0
  {
    Distortion(values, StoredCodes(values, levels), levels) / |values| as real
  }

  lemma MeasuredIsObjective(values: seq<real>, levels: seq<real>)
    requires 0 < |levels| <= 256 && |values| > 0
    ensures Measured(values, levels) == Objective(values, levels)
  {
    hide Distortion, Codes, StoredCodes;
    StoredAreNearest(values, levels);
  }

  predicate Offers(levels: seq<real>, others: seq<real>) {
    forall j :: 0 <= j < |others| ==> others[j] in levels
  }

  /** Nearest codes beat every assignment, even to levels of another codebook that are all offered
      by this one. */
  lemma {:induction false} NearestBeats(values: seq<real>, levels: seq<real>, codes: seq<nat>,
                                        others: seq<real>)
    requires |levels| > 0 && |codes| == |values| && ValidCodes(codes, |others|)
    requires Offers(levels, others)
    ensures Error(values, levels) <= Distortion(values, codes, others)
  {
    hide Sq, Abs, Nearest;
    if values != [] {
      var v, level := values[0], others[codes[0]];
      assert level in levels;
      var j :| 0 <= j < |levels| && levels[j] == level;
      NearestSquare(v, levels, j);
      NearestBeats(values[1..], levels, codes[1..], others);
      assert Codes(values, levels)[1..] == Codes(values[1..], levels);
    }
  }

  lemma NearestSquare(v: real, levels: seq<real>, j: nat)
    requires j < |levels|
    ensures Sq(v - levels[Nearest(v, levels)]) <= Sq(v - levels[j])
  {
    hide Abs, Sq, NearestOf;
    NearestIsLeast(v, levels, |levels|, j);
    AbsSquares(v - levels[Nearest(v, levels)], v - levels[j]);
  }

  // ---------------------------------------------------------------- cluster means

  function ClusterSize(codes: seq<nat>, k: nat): nat {
    if codes == [] then 0 else (if codes[0] == k then 1 else 0) + ClusterSize(codes[1..], k)
  }

  function ClusterSum(values: seq<real>, codes: seq<nat>, k: nat): real
    requires |codes| == |values|
  {
    if values == [] then 0.0
    else (if codes[0] == k then values[0] else 0.0) + ClusterSum(values[1..], codes[1..], k)
  }

  /** The squared error of one cluster around `x`. */
  function ClusterError(values: seq<real>, codes: seq<nat>, k: nat, x: real): real
    requires |codes| == |values|
  {
    if values == [] then 0.0
    else
      (if codes[0] == k then Sq(values[0] - x) else 0.0)
      + ClusterError(values[1..], codes[1..], k, x)
  }

  function MeanOrKept(values: seq<real>, codes: seq<nat>, level: real, k: nat): real
    requires |codes| == |values|
  {
    if ClusterSize(codes, k) > 0
    then ClusterSum(values, codes, k) / ClusterSize(codes, k) as real
    else level
  }

  /** error(x) - error(y) = n (x^2 - y^2) - 2 s (x - y), for a cluster of n values with sum s. */
  lemma {:induction false} ErrorShift(values: seq<real>, codes: seq<nat>, k: nat, x: real, y: real)
    requires |codes| == |values|
    ensures ClusterError(values, codes, k, x) - ClusterError(values, codes, k, y)
            == Mul(ClusterSize(codes, k) as real, Sq(x) - Sq(y))
               - Mul(2.0 * ClusterSum(values, codes, k), x - y)
  {
    if values == [] {
      assert Mul(0.0, Sq(x) - Sq(y)) == 0.0 && Mul(0.0, x - y) == 0.0;
    } else {
      ErrorShift(values[1..], codes[1..], k, x, y);
      if codes[0] == k {
        OneMore(ClusterSize(codes[1..], k), ClusterSum(values[1..], codes[1..], k), values[0], x, y);
      }
    }
  }

  lemma OneMore(n: nat, s: real, v: real, x: real, y: real)
    ensures Sq(v - x) - Sq(v - y) + Mul(n as real, Sq(x) - Sq(y)) - Mul(2.0 * s, x - y)
            == Mul((1 + n) as real, Sq(x) - Sq(y)) - Mul(2.0 * (v + s), x - y)
  {
    assert (1 + n) as real == 1.0 + n as real;
    Distribute(1.0, n as real, Sq(x) - Sq(y));
    Distribute(2.0 * v, 2.0 * s, x - y);
    assert Sq(v - x) - Sq(v - y) == Sq(x) - Sq(y) - Mul(2.0 * v, x - y);
  }

  lemma Distribute(a: real, b: real, c: real)
    ensures Mul(a + b, c) == Mul(a, c) + Mul(b, c)
  {
  }

  /** The mean of a cluster is its best level. */
  lemma MeanIsBest(values: seq<real>, codes: seq<nat>, k: nat, level: real)
    requires |codes| == |values|
    ensures ClusterError(values, codes, k, MeanOrKept(values, codes, level, k))
            <= ClusterError(values, codes, k, level)
  {
    hide ClusterError, ClusterSize, ClusterSum, Mul, Sq;
    var n, s := ClusterSize(codes, k), ClusterSum(values, codes, k);
    if n > 0 {
      var m := s / n as real;
      ErrorShift(values, codes, k, level, m);
      MeanShift(n as real, s, m, level);
    }
  }

  lemma MeanShift(n: real, s: real, m: real, x: real)
    requires n > 0.0 && m == s / n
    ensures Mul(n, Sq(x) - Sq(m)) - Mul(2.0 * s, x - m) >= 0.0
  {
    assert s == n * m;
    ShiftIsSquare(n, m, x);
    SquarePositive(x - m);
    assert n * Sq(x - m) >= 0.0;
  }

  lemma ShiftIsSquare(n: real, m: real, x: real)
    ensures Mul(n, Sq(x) - Sq(m)) - Mul(2.0 * (n * m), x - m) == n * Sq(x - m)
  {
    var d := x - m;
    assert Sq(x) - Sq(m) == d * d + 2.0 * (m * d);
    assert n * (d * d + 2.0 * (m * d)) == n * (d * d) + 2.0 * (n * (m * d));
    assert (2.0 * (n * m)) * d == 2.0 * (n * (m * d));
  }

  lemma SquarePositive(x: real)
    ensures Sq(x) >= 0.0
  {
  }

  /** Changing one level changes the distortion by what its cluster gains or loses. */
  lemma {:induction false} ChangeLevel(values: seq<real>, codes: seq<nat>, levels: seq<real>, k: nat,
                                       x: real)
    requires |codes| == |values| && ValidCodes(codes, |levels|) && k < |levels|
    ensures Distortion(values, codes, levels[k := x]) - Distortion(values, codes, levels)
            == ClusterError(values, codes, k, x) - ClusterError(values, codes, k, levels[k])
  {
    hide Sq;
    if values != [] {
      ChangeLevel(values[1..], codes[1..], levels, k, x);
    }
  }

  function Means(values: seq<real>, codes: seq<nat>, levels: seq<real>): (means: seq<real>)
    requires |codes| == |values|
    ensures |means| == |levels|
  {
    seq(|levels|, k requires 0 <= k < |levels| => MeanOrKept(values, codes, levels[k], k))
  }

  /** Taking the means, cluster by cluster. */
  lemma {:induction false} MeansImproveTo(values: seq<real>, codes: seq<nat>, levels: seq<real>,
                                          k: nat)
    requires |codes| == |values| && ValidCodes(codes, |levels|) && k <= |levels|
    ensures Distortion(values, codes, Means(values, codes, levels)[..k] + levels[k..])
            <= Distortion(values, codes, levels)
    decreases k
  {
    hide Distortion, MeanOrKept, ClusterError;
    var means := Means(values, codes, levels);
    if k == 0 {
      assert means[..0] + levels[0..] == levels;
    } else {
      MeansImproveTo(values, codes, levels, k - 1);
      var before := means[..k - 1] + levels[k - 1..];
      assert before[k - 1 := means[k - 1]] == means[..k] + levels[k..];
      ChangeLevel(values, codes, before, k - 1, means[k - 1]);
      MeanIsBest(values, codes, k - 1, levels[k - 1]);
    }
  }

  // ---------------------------------------------------------------- one iteration

  predicate AtMost(a: real, b: real) {
    a <= b
  }

  /** Levels in increasing order. */
  function Ordered(levels: seq<real>): (sorted: seq<real>)
    ensures |sorted| == |levels| && multiset(sorted) == multiset(levels)
    ensures forall i, j :: 0 <= i < j < |sorted| ==> sorted[i] <= sorted[j]
    ensures forall x :: x in sorted <==> x in levels
  {
    SortSorts(levels, AtMost);
    SortMembers(levels, AtMost);
    Sort(levels, AtMost)
  }

  /** One iteration: stored nearest codes, cluster means with empty clusters kept, sort. */
  function Step(values: seq<real>, levels: seq<real>): (updated: seq<real>)
    requires |levels| > 0
    ensures |updated| == |levels| && forall i, j :: 0 <= i < j < |updated| ==> updated[i] <= updated[j]
  {
    Ordered(Means(values, StoredCodes(values, levels), levels))
  }

  lemma OrderedOffers(s: seq<real>)
    ensures Offers(Ordered(s), s)
  {
  }

  /** No iteration on at most 256 levels ever increases the objective. */
  lemma StepNeverWorse(values: seq<real>, levels: seq<real>)
    requires 0 < |levels| <= 256
    ensures Error(values, Step(values, levels)) <= Error(values, levels)
    ensures |values| > 0 ==> Objective(values, Step(values, levels)) <= Objective(values, levels)
  {
    hide Distortion, Codes, StoredCodes, Means, Ordered;
    var codes := Codes(values, levels);
    StoredAreNearest(values, levels);
    var means := Means(values, codes, levels);
    MeansImproveTo(values, codes, levels, |levels|);
    assert means[..|levels|] + levels[|levels|..] == means;
    OrderedOffers(means);
    NearestBeats(values, Ordered(means), codes, means);
    if |values| > 0 {
      DivideKeepsOrder(Error(values, Step(values, levels)), Error(values, levels), |values|);
    }
  }

  lemma DivideKeepsOrder(a: real, b: real, n: nat)
    requires a <= b && n > 0
    ensures a / n as real <= b / n as real
  {
  }

  function Iterated(values: seq<real>, levels: seq<real>, k: nat): (r: seq<real>)
    requires |levels| > 0
    ensures |r| == |levels|
  {
    if k == 0 then levels else Step(values, Iterated(values, levels, k - 1))
  }

  /** Over a whole run the objective only falls. */
  lemma {:induction false} RunNeverWorse(values: seq<real>, levels: seq<real>, i: nat, j: nat)
    requires 0 < |levels| <= 256 && |values| > 0 && i <= j
    ensures Objective(values, Iterated(values, levels, j))
            <= Objective(values, Iterated(values, levels, i))
    decreases j
  {
    hide Objective, Step;
    if i < j {
      RunNeverWorse(values, levels, i, j - 1);
      StepNeverWorse(values, Iterated(values, levels, j - 1));
    }
  }
}
