/** The code lengths of the entropy accounting satisfy the Kraft inequality, and a binary prefix
    code with exactly these lengths exists: it is built level by level. */
module PrefixCode {
  import opened Bytes
  import opened Common

  type Word = seq<bool>

  // ---------------------------------------------------------------- lengths

  /** How often `count` must be doubled to reach `total`: the ceiling of -log2(count / total). */
  function Doublings(count: nat, total: nat): nat
    requires count > 0
    decreases if count < total then total - count else 0
  {
    if count >= total then 0 else 1 + Doublings(2 * count, total)
  }

  function CodeLength(count: nat, total: nat): nat
    requires count > 0
  {
    if Doublings(count, total) > 1 then Doublings(count, total) else 1
  }

  lemma {:induction false} DoublingsLeast(count: nat, total: nat)
    requires count > 0
    ensures count * Power2(Doublings(count, total)) >= total
    ensures Doublings(count, total) > 0 ==> count * Power2(Doublings(count, total) - 1) < total
    decreases if count < total then total - count else 0
  {
    if count < total {
      var d := Doublings(2 * count, total);
      DoublingsLeast(2 * count, total);
      MoveTwo(count, Power2(d));
      if d > 0 {
        MoveTwo(count, Power2(d - 1));
      }
    }
  }

  lemma MoveTwo(c: nat, p: nat)
    ensures (2 * c) * p == c * (2 * p)
  {
  }

  /** The length is the least L of at least 1 with count * 2^L >= total. */
  lemma CodeLengthLeast(count: nat, total: nat)
    requires count > 0
    ensures var l := CodeLength(count, total);
            && l >= 1 && count * Power2(l) >= total
            && (l > 1 ==> count * Power2(l - 1) < total)
  {
    DoublingsLeast(count, total);
    if Doublings(count, total) == 0 {
      MoveTwo(count, 1);
      assert Power2(1) == 2;
    }
  }

  // ---------------------------------------------------------------- the Kraft inequality

  /** 2^-length */
  function Weight(length: nat): (w: real)
    ensures w > 0.0
  {
    if length == 0 then 1.0 else Weight(length - 1) / 2.0
  }

  function KraftSum(lengths: seq<nat>): real {
    if lengths == [] then 0.0 else Weight(lengths[0]) + KraftSum(lengths[1..])
  }

  function Sum(counts: seq<nat>): nat {
    if counts == [] then 0 else counts[0] + Sum(counts[1..])
  }

  function Lengths(counts: seq<nat>, total: nat): (l: seq<nat>)
    requires forall i :: 0 <= i < |counts| ==> counts[i] > 0
    ensures |l| == |counts|
  {
    seq(|counts|, i requires 0 <= i < |counts| => CodeLength(counts[i], total))
  }

  function Scale(x: real, k: nat): real {
    x * (k as real)
  }

  lemma {:induction false} WeightInverse(length: nat)
    ensures Scale(Weight(length), Power2(length)) == 1.0
  {
    if length > 0 {
      WeightInverse(length - 1);
    }
  }

  lemma ScaleMonotone(x: real, j: nat, k: nat)
    requires x > 0.0 && j <= k
    ensures Scale(x, j) <= Scale(x, k)
  {
  }

  lemma ScaleTimes(x: real, c: nat, p: nat)
    requires Scale(x, p) == 1.0
    ensures Scale(x, c * p) == c as real
  {
    assert (c * p) as real == (c as real) * (p as real);
    assert x * ((c as real) * (p as real)) == (c as real) * (x * (p as real));
  }

  lemma ScaleAdds(x: real, y: real, k: nat)
    ensures Scale(x + y, k) == Scale(x, k) + Scale(y, k)
  {
  }

  lemma {:induction false} KraftScaled(counts: seq<nat>, total: nat)
    requires forall i :: 0 <= i < |counts| ==> counts[i] > 0
    ensures Scale(KraftSum(Lengths(counts, total)), total) <= Sum(counts) as real
  {
    hide Scale, Power2, Weight, CodeLength;
    if counts == [] {
      assert Scale(0.0, total) == 0.0 by { ScaleZero(total); }
    } else {
      var length := CodeLength(counts[0], total);
      CodeLengthLeast(counts[0], total);
      WeightInverse(length);
      ScaleTimes(Weight(length), counts[0], Power2(length));
      ScaleMonotone(Weight(length), total, counts[0] * Power2(length));
      KraftScaled(counts[1..], total);
      assert Lengths(counts, total)[1..] == Lengths(counts[1..], total);
      ScaleAdds(Weight(length), KraftSum(Lengths(counts[1..], total)), total);
    }
  }

  lemma ScaleZero(k: nat)
    ensures Scale(0.0, k) == 0.0
  {
  }

  /** The Kraft inequality, for every histogram. */
  lemma Kraft(counts: seq<nat>, total: nat)
    requires (forall i :: 0 <= i < |counts| ==> counts[i] > 0) && Sum(counts) == total > 0
    ensures KraftSum(Lengths(counts, total)) <= 1.0
  {
    hide *;
    KraftScaled(counts, total);
    Unscale(KraftSum(Lengths(counts, total)), total);
  }

  lemma Unscale(x: real, k: nat)
    requires k > 0 && Scale(x, k) <= k as real
    ensures x <= 1.0
  {
    if x > 1.0 {
      assert (x - 1.0) * (k as real) > 0.0;
    }
  }

  // ---------------------------------------------------------------- building the code

  predicate PrefixFree(codes: seq<Word>) {
    forall i, j :: 0 <= i < |codes| && 0 <= j < |codes| && i != j ==> !(codes[i] <= codes[j])
  }

  /** Words still to be given out once level `d` has been handled up to index `i`. */
  predicate Pending(lengths: seq<nat>, d: nat, i: nat, j: nat)
    requires j < |lengths|
  {
    lengths[j] > d || (lengths[j] == d && j >= i)
  }

  function PendingWeight(lengths: seq<nat>, d: nat, i: nat, from: nat): (w: real)
    requires from <= |lengths|
    ensures w >= 0.0
    decreases |lengths| - from
  {
    if from == |lengths| then 0.0
    else
      (if Pending(lengths, d, i, from) then Weight(lengths[from]) else 0.0)
      + PendingWeight(lengths, d, i, from + 1)
  }

  lemma {:induction false} WeightOfAll(lengths: seq<nat>, from: nat)
    requires from <= |lengths|
    ensures PendingWeight(lengths, 0, 0, from) == KraftSum(lengths[from..])
    decreases |lengths| - from
  {
    hide Weight;
    if from < |lengths| {
      WeightOfAll(lengths, from + 1);
      assert lengths[from..][1..] == lengths[from + 1..];
    }
  }

  lemma {:induction false} WeightOfNextLevel(lengths: seq<nat>, d: nat, from: nat)
    requires from <= |lengths|
    ensures PendingWeight(lengths, d, |lengths|, from) == PendingWeight(lengths, d + 1, 0, from)
    decreases |lengths| - from
  {
    hide Weight;
    if from < |lengths| {
      WeightOfNextLevel(lengths, d, from + 1);
    }
  }

  lemma {:induction false} WeightOfNext(lengths: seq<nat>, d: nat, i: nat, from: nat)
    requires i < |lengths| && from <= |lengths|
    ensures PendingWeight(lengths, d, i, from)
            == PendingWeight(lengths, d, i + 1, from)
               + if from <= i && lengths[i] == d then Weight(d) else 0.0
    decreases |lengths| - from
  {
    hide Weight;
    if from < |lengths| {
      WeightOfNext(lengths, d, i, from + 1);
    }
  }

  /** Free nodes of one level of the code tree. */
  predicate Free(nodes: seq<Word>, d: nat) {
    && (forall k :: 0 <= k < |nodes| ==> |nodes[k]| == d)
    && (forall k, l :: 0 <= k < l < |nodes| ==> nodes[k] != nodes[l])
  }

  predicate Below(nodes: seq<Word>, w: Word) {
    exists k :: 0 <= k < |nodes| && nodes[k] <= w
  }

  function Children(nodes: seq<Word>): (c: seq<Word>)
    ensures |c| == 2 * |nodes|
  {
    if nodes == [] then []
    else [nodes[0] + [false], nodes[0] + [true]] + Children(nodes[1..])
  }

  lemma {:induction false} ChildrenAt(nodes: seq<Word>, k: nat)
    requires k < |Children(nodes)|
    ensures Children(nodes)[k] == nodes[k / 2] + [k % 2 == 1]
  {
    if k >= 2 {
      ChildrenAt(nodes[1..], k - 2);
    }
  }

  lemma ChildrenFree(nodes: seq<Word>, d: nat)
    requires Free(nodes, d)
    ensures Free(Children(nodes), d + 1)
  {
    hide Children;
    var children := Children(nodes);
    forall k | 0 <= k < |children| ensures |children[k]| == d + 1 {
      ChildrenAt(nodes, k);
    }
    forall k, l | 0 <= k < l < |children| ensures children[k] != children[l] {
      ChildrenAt(nodes, k);
      ChildrenAt(nodes, l);
      assert children[k][..d] == nodes[k / 2] && children[l][..d] == nodes[l / 2];
      if k / 2 == l / 2 {
        assert children[k][d] != children[l][d];
      }
    }
  }

  lemma ChildrenBelow(nodes: seq<Word>, w: Word)
    requires Below(Children(nodes), w)
    ensures Below(nodes, w)
  {
    hide Children;
    var k :| 0 <= k < |Children(nodes)| && Children(nodes)[k] <= w;
    ChildrenAt(nodes, k);
    assert nodes[k / 2] <= w;
  }

  predicate Assigned(lengths: seq<nat>, d: nat, i: nat, nodes: seq<Word>, codes: seq<Word>) {
    && |codes| == |lengths|
    && (forall j :: 0 <= j < |lengths| && Pending(lengths, d, i, j) ==>
          |codes[j]| == lengths[j] && Below(nodes, codes[j]))
    && (forall j, k :: (0 <= j < |lengths| && 0 <= k < |lengths| && j != k
                        && Pending(lengths, d, i, j) && Pending(lengths, d, i, k)) ==>
          !(codes[j] <= codes[k]))
  }

  /** A free node taken for word `i` is a prefix of none of the others, nor they of it. */
  lemma TakeNode(lengths: seq<nat>, d: nat, i: nat, nodes: seq<Word>, rest: seq<Word>)
    requires i < |lengths| && lengths[i] == d && |nodes| > 0 && Free(nodes, d)
    requires Assigned(lengths, d, i + 1, nodes[1..], rest)
    ensures Assigned(lengths, d, i, nodes, rest[i := nodes[0]])
  {
    var codes := rest[i := nodes[0]];
    assert nodes[0] <= codes[i];
    forall j | 0 <= j < |lengths| && j != i && Pending(lengths, d, i, j)
      ensures Below(nodes, codes[j]) && !(codes[i] <= codes[j]) && !(codes[j] <= codes[i])
      ensures |codes[j]| == lengths[j]
    {
      assert Pending(lengths, d, i + 1, j) && Below(nodes[1..], codes[j]);
      var k :| 0 <= k < |nodes[1..]| && nodes[1..][k] <= codes[j];
      assert nodes[k + 1] <= codes[j] && nodes[0] != nodes[k + 1];
      assert codes[j][..d] == nodes[k + 1];
    }
    forall j, k | 0 <= j < |lengths| && 0 <= k < |lengths| && j != k
                  && Pending(lengths, d, i, j) && Pending(lengths, d, i, k)
      ensures !(codes[j] <= codes[k])
    {
      if j != i && k != i {
        assert Pending(lengths, d, i + 1, j) && Pending(lengths, d, i + 1, k);
      }
    }
  }

  lemma SkipWord(lengths: seq<nat>, d: nat, i: nat, nodes: seq<Word>, codes: seq<Word>)
    requires i < |lengths| && lengths[i] != d && Assigned(lengths, d, i + 1, nodes, codes)
    ensures Assigned(lengths, d, i, nodes, codes)
  {
    hide Below;
    assert forall j :: 0 <= j < |lengths| ==>
             Pending(lengths, d, i, j) == Pending(lengths, d, i + 1, j);
  }

  lemma NextLevel(lengths: seq<nat>, d: nat, nodes: seq<Word>, codes: seq<Word>)
    requires Assigned(lengths, d + 1, 0, Children(nodes), codes)
    ensures Assigned(lengths, d, |lengths|, nodes, codes)
  {
    hide Below, Children;
    assert forall j :: 0 <= j < |lengths| ==>
             Pending(lengths, d, |lengths|, j) == Pending(lengths, d + 1, 0, j);
    forall j | 0 <= j < |lengths| && Pending(lengths, d, |lengths|, j)
      ensures Below(nodes, codes[j])
    {
      ChildrenBelow(nodes, codes[j]);
    }
  }

  /** Gives out the words of level `d` from index `i` on, then those of the deeper levels. */
  lemma {:induction false} Assign(lengths: seq<nat>, d: nat, i: nat, nodes: seq<Word>, top: nat)
      returns (codes: seq<Word>)
    requires i <= |lengths| && d <= top + 1 && Free(nodes, d)
    requires forall j :: 0 <= j < |lengths| ==> lengths[j] <= top
    requires PendingWeight(lengths, d, i, 0) <= Scale(Weight(d), |nodes|)
    ensures Assigned(lengths, d, i, nodes, codes)
    decreases top + 1 - d, |lengths| - i
  {
    hide Scale, PendingWeight, Free, Assigned, Weight;
    if d > top {
      codes := seq(|lengths|, _ => []);
      NothingPending(lengths, d, i, nodes, codes, top);
    } else if i == |lengths| {
      WeightOfNextLevel(lengths, d, 0);
      ChildWeight(d, |nodes|);
      ChildrenFree(nodes, d);
      codes := Assign(lengths, d + 1, 0, Children(nodes), top);
      NextLevel(lengths, d, nodes, codes);
    } else {
      WeightOfNext(lengths, d, i, 0);
      if lengths[i] == d {
        SomeFree(PendingWeight(lengths, d, i + 1, 0), Weight(d), |nodes|);
        TailFree(nodes, d);
        codes := Assign(lengths, d, i + 1, nodes[1..], top);
        TakeNode(lengths, d, i, nodes, codes);
        assert |codes| == |lengths| by { AssignedLength(lengths, d, i + 1, nodes[1..], codes); }
        codes := codes[i := nodes[0]];
      } else {
        codes := Assign(lengths, d, i + 1, nodes, top);
        SkipWord(lengths, d, i, nodes, codes);
      }
    }
  }

  lemma AssignedLength(lengths: seq<nat>, d: nat, i: nat, nodes: seq<Word>, codes: seq<Word>)
    requires Assigned(lengths, d, i, nodes, codes)
    ensures |codes| == |lengths|
  {
  }

  lemma NothingPending(lengths: seq<nat>, d: nat, i: nat, nodes: seq<Word>, codes: seq<Word>, top: nat)
    requires d > top && |codes| == |lengths|
    requires forall j :: 0 <= j < |lengths| ==> lengths[j] <= top
    ensures Assigned(lengths, d, i, nodes, codes)
  {
  }

  lemma ChildWeight(d: nat, n: nat)
    ensures Scale(Weight(d), n) == Scale(Weight(d + 1), 2 * n)
  {
    assert Weight(d) == 2.0 * Weight(d + 1);
    assert (2 * n) as real == 2.0 * (n as real);
  }

  lemma ScaleByZero(w: real)
    ensures Scale(w, 0) == 0.0
  {
  }

  lemma SomeFree(pending: real, w: real, n: nat)
    requires pending >= 0.0 && w > 0.0 && pending + w <= Scale(w, n)
    ensures n > 0 && pending <= Scale(w, n - 1)
  {
    ScaleByZero(w);
    if n > 0 {
      assert (n - 1) as real == n as real - 1.0;
      assert Scale(w, n - 1) == Scale(w, n) - w;
    }
  }

  lemma TailFree(nodes: seq<Word>, d: nat)
    requires |nodes| > 0 && Free(nodes, d)
    ensures Free(nodes[1..], d)
  {
  }

  function Longest(lengths: seq<nat>): (top: nat)
    ensures forall i :: 0 <= i < |lengths| ==> lengths[i] <= top
  {
    if lengths == [] then 0
    else
      var rest := Longest(lengths[1..]);
      assert forall i :: 0 < i < |lengths| ==> lengths[i] == lengths[1..][i - 1];
      if lengths[0] >= rest then lengths[0] else rest
  }

  /** Kraft's theorem: lengths with a Kraft sum of at most 1 are those of a prefix code. */
  lemma PrefixCodeExists(lengths: seq<nat>) returns (codes: seq<Word>)
    requires KraftSum(lengths) <= 1.0
    ensures |codes| == |lengths| && PrefixFree(codes)
    ensures forall i :: 0 <= i < |codes| ==> |codes[i]| == lengths[i]
  {
    hide KraftSum, PendingWeight;
    WeightOfAll(lengths, 0);
    assert lengths[0..] == lengths;
    assert Scale(Weight(0), 1) == 1.0;
    codes := Assign(lengths, 0, 0, [[]], Longest(lengths));
    assert forall j :: 0 <= j < |lengths| ==> Pending(lengths, 0, 0, j);
  }
}
