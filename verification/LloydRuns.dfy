/** The two Lloyd loops and the array passes they are made of. */
module LloydRuns {
  import opened Common
  import opened Lloyd

  const CHUNK: nat := 262144

  /** Codes are found chunk by chunk and stored in bytes. */
  method NearestCodes(values: seq<real>, levels: seq<real>) returns (result: array<nat>)
    requires |levels| > 0
    ensures fresh(result) && result.Length == |values|
    ensures result[..] == StoredCodes(values, levels)
  {
    hide Nearest;
    result := new nat[|values|];
    var start := 0;
    while start < |values|
      invariant 0 <= start <= |values|
      invariant forall i :: 0 <= i < start ==> result[i] == Nearest(values[i], levels) % 256
    {
      var end := if start + CHUNK <= |values| then start + CHUNK else |values|;
      forall i | start <= i < end {
        result[i] := Nearest(values[i], levels) % 256;
      }
      start := end;
    }
  }

  // ---------------------------------------------------------------- sums and sizes

  lemma {:induction false} LastValue(values: seq<real>, codes: seq<nat>, n: nat, k: nat)
    requires |codes| == |values| && n < |values|
    ensures ClusterSum(values[..n + 1], codes[..n + 1], k)
            == ClusterSum(values[..n], codes[..n], k) + if codes[n] == k then values[n] else 0.0
    ensures ClusterSize(codes[..n + 1], k)
            == ClusterSize(codes[..n], k) + if codes[n] == k then 1 else 0
    decreases n
  {
    if n > 0 {
      LastValue(values[1..], codes[1..], n - 1, k);
      assert values[..n + 1][1..] == values[1..][..n] && codes[..n + 1][1..] == codes[1..][..n];
      assert values[..n][1..] == values[1..][..n - 1] && codes[..n][1..] == codes[1..][..n - 1];
    } else {
      assert values[..1][1..] == [] && codes[..1][1..] == [];
    }
  }

  /** Weighted and plain bin counts in one array each, then the mean of every non-empty bin. */
  method UpdateLevels(values: seq<real>, codes: array<nat>, levels: seq<real>)
      returns (updated: seq<real>)
    requires |levels| > 0 && codes.Length == |values|
    requires codes[..] == StoredCodes(values, levels)
    ensures updated == Step(values, levels)
  {
    hide ClusterSum, ClusterSize, Ordered, StoredCodes;
    var count := |levels|;
    var sums, sizes := new real[count](_ => 0.0), new nat[count](_ => 0);
    var i := 0;
    NoValues(values[..0], codes[..0]);
    while i < |values|
      invariant 0 <= i <= |values|
      invariant forall k :: 0 <= k < count ==>
        sums[k] == ClusterSum(values[..i], codes[..i], k) && sizes[k] == ClusterSize(codes[..i], k)
    {
      forall k | 0 <= k < count
        ensures ClusterSum(values[..i + 1], codes[..i + 1], k)
                == sums[k] + if codes[i] == k then values[i] else 0.0
        ensures ClusterSize(codes[..i + 1], k) == sizes[k] + if codes[i] == k then 1 else 0
      {
        LastValue(values, codes[..], i, k);
        assert codes[..][..i] == codes[..i] && codes[..][..i + 1] == codes[..i + 1];
      }
      assert codes[i] == codes[..][i];
      sums[codes[i]] := sums[codes[i]] + values[i];
      sizes[codes[i]] := sizes[codes[i]] + 1;
      i := i + 1;
    }
    assert values[..i] == values && codes[..i] == codes[..];
    var means := seq(count, k requires 0 <= k < count reads sums, sizes =>
      if sizes[k] > 0 then sums[k] / sizes[k] as real else levels[k]);
    assert means == Means(values, codes[..], levels);
    updated := Ordered(means);
  }

  lemma NoValues(values: seq<real>, codes: seq<nat>)
    requires |values| == |codes| == 0
    ensures forall k :: ClusterSum(values, codes, k) == 0.0 && ClusterSize(codes, k) == 0
  {
  }

  // ---------------------------------------------------------------- the loop of `lloyd_max`

  predicate AllClose(updated: seq<real>, levels: seq<real>)
    requires |updated| == |levels|
  {
    forall k :: 0 <= k < |levels| ==>
      Abs(updated[k] - levels[k]) <= 0.00000001 + 0.000001 * Abs(levels[k])
  }

  /** Close means within 1e-8 plus a millionth of the size of the earlier level, for every level. */
  lemma CloseExactly(updated: seq<real>, levels: seq<real>)
    requires |updated| == |levels|
    ensures AllClose(updated, levels)
       <==> forall k :: 0 <= k < |levels| ==>
              var u, l := updated[k], levels[k];
              var room := 0.00000001 + 0.000001 * (if l >= 0.0 then l else -l);
              -room <= u - l <= room
  {
  }

  /** Iterates from given levels until nothing moves noticeably. The result is one of the iterates,
      the first that is close to the one before it if any is, and with at most 256 levels its
      objective is no worse than that of any earlier one. */
  method LloydMax(values: seq<real>, initial: seq<real>, iterations: nat)
      returns (levels: seq<real>, ghost steps: nat)
    requires |values| > 0 && |initial| > 0
    ensures steps <= iterations && levels == Iterated(values, initial, steps)
    ensures |levels| == |initial|
    ensures |initial| <= 256 ==> Objective(values, levels) <= Objective(values, initial)
    ensures steps < iterations ==>
              steps > 0 && AllClose(levels, Iterated(values, initial, steps - 1))
    ensures forall j: nat :: 1 <= j < steps ==>
              !AllClose(Iterated(values, initial, j), Iterated(values, initial, j - 1))
    ensures |initial| <= 256 ==> forall k :: 0 <= k <= steps ==>
              Objective(values, levels) <= Objective(values, Iterated(values, initial, k))
  {
    hide Step, StoredCodes, Objective, AllClose;
    levels := initial;
    steps := 0;
    var i := 0;
    while i < iterations
      invariant 0 <= i <= iterations && steps == i
      invariant levels == Iterated(values, initial, steps) && |levels| == |initial|
      invariant forall j: nat :: 1 <= j <= steps ==>
        !AllClose(Iterated(values, initial, j), Iterated(values, initial, j - 1))
    {
      var codes := NearestCodes(values, levels);
      var updated := UpdateLevels(values, codes, levels);
      steps := steps + 1;
      if AllClose(updated, levels) {
        levels := updated;
        break;
      }
      levels := updated;
      i := i + 1;
    }
    forall k | |initial| <= 256 && 0 <= k <= steps
      ensures Objective(values, levels) <= Objective(values, Iterated(values, initial, k))
    {
      RunNeverWorse(values, initial, k, steps);
    }
    assert Iterated(values, initial, 0) == initial;
  }

  // ---------------------------------------------------------------- the loop of `lloyd`

  function Greater(a: real, b: real): real {
    if a >= b then a else b
  }

  /** The mean squared error of stored codes. */
  method MeasureObjective(values: seq<real>, codes: array<nat>, levels: seq<real>)
      returns (objective: real)
    requires |values| > 0 && |levels| > 0 && codes.Length == |values|
    requires codes[..] == StoredCodes(values, levels)
    ensures objective == Measured(values, levels)
  {
    hide StoredCodes;
    objective := Distortion(values, codes[..], levels) / |values| as real;
  }

  /** The error measured with the stored codes of an iterate. */
  function MeasuredAt(values: seq<real>, initial: seq<real>, k: nat): real
    requires |values| > 0 && |initial| > 0
  {
    Measured(values, Iterated(values, initial, k))
  }

  /** Iterates until the measured objective falls by next to nothing: the loop stops at the first pair
      of iterates between which the fall is not negative and at most 1e-12 or a millionth of the new
      value, and the improvement is reported against the iterate before that pair's second. With at
      most 256 levels the objective never rises, and the reported improvement needs no clamping. */
  method RunLloyd(values: seq<real>, initial: seq<real>, maximumIterations: nat)
      returns (levels: seq<real>, iteration: nat, objective: real, improvement: real)
    requires |values| > 0 && |initial| > 0 && maximumIterations > 0
    ensures 1 <= iteration <= maximumIterations
    ensures levels == Iterated(values, initial, iteration)
    ensures objective == Measured(values, levels)
    ensures var fell := iteration >= 2 &&
              var p := MeasuredAt(values, initial, iteration - 2);
              var c := MeasuredAt(values, initial, iteration - 1);
              0.0 <= p - c && (p - c <= 0.000000000001 || p - c <= 0.000001 * c);
            && (iteration < maximumIterations ==> fell)
            && improvement
               == Greater(0.0, MeasuredAt(values, initial, iteration - if fell then 2 else 1) - objective)
    ensures forall i: nat, j: nat :: j == i + 1 && j + 1 < iteration ==>
              var p, c := MeasuredAt(values, initial, i), MeasuredAt(values, initial, j);
              p - c < 0.0 || (p - c > 0.000000000001 && p - c > 0.000001 * c)
    ensures improvement >= 0.0
    ensures |initial| <= 256 ==> forall k :: 0 <= k <= iteration ==>
              objective <= Objective(values, Iterated(values, initial, k))
    ensures |initial| <= 256 && iteration < maximumIterations ==>
              improvement == Objective(values, Iterated(values, initial, iteration - 2)) - objective
  {
    hide Step, StoredCodes, Objective, Measured, Distortion;
    levels := initial;
    var previous: Option<real> := None;
    iteration := 0;
    while iteration < maximumIterations
      invariant 0 <= iteration <= maximumIterations
      invariant levels == Iterated(values, initial, iteration) && |levels| == |initial|
      invariant previous ==
        if iteration == 0 then None
        else Some(MeasuredAt(values, initial, iteration - 1))
      invariant forall i: nat, j: nat :: j == i + 1 && j + 1 <= iteration ==>
        var p, c := MeasuredAt(values, initial, i), MeasuredAt(values, initial, j);
        p - c < 0.0 || (p - c > 0.000000000001 && p - c > 0.000001 * c)
    {
      iteration := iteration + 1;
      var codes := NearestCodes(values, levels);
      var current := MeasureObjective(values, codes, levels);
      levels := UpdateLevels(values, codes, levels);
      if previous.Some? {
        var delta := previous.value - current;
        if delta >= 0.0 && delta <= Greater(0.000000000001, current * 0.000001) {
          break;
        }
      }
      previous := Some(current);
    }
    var codes := NearestCodes(values, levels);
    objective := MeasureObjective(values, codes, levels);
    improvement := Greater(0.0, previous.value - objective);
    if |initial| <= 256 {
      forall k | 0 <= k <= iteration
        ensures objective <= Objective(values, Iterated(values, initial, k))
      {
        MeasuredIsObjective(values, levels);
        RunNeverWorse(values, initial, k, iteration);
      }
      if iteration >= 2 {
        MeasuredIsObjective(values, Iterated(values, initial, iteration - 2));
      }
    }
  }
}
