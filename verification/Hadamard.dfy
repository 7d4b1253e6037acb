/**
 The Walsh-Hadamard transform of a block of 2^k reals: as a recursion on halves, as a
 matrix of signs, and as the passes of in-place butterflies that compute it.
 */
module Hadamard {
  import opened Common

  function Add(a: seq<real>, b: seq<real>): (r: seq<real>)
    requires |a| == |b|
    ensures |r| == |a| && forall i :: 0 <= i < |r| ==> r[i] == a[i] + b[i]
  {
    seq(|a|, i requires 0 <= i < |a| => a[i] + b[i])
  }

  function Sub(a: seq<real>, b: seq<real>): (r: seq<real>)
    requires |a| == |b|
    ensures |r| == |a| && forall i :: 0 <= i < |r| ==> r[i] == a[i] - b[i]
  {
    seq(|a|, i requires 0 <= i < |a| => a[i] - b[i])
  }

  /** The transform by halves. */
  function Wht(k: nat, s: seq<real>): (r: seq<real>)
    requires |s| == Power2(k)
    ensures |r| == |s|
  {
    if k == 0 then s
    else
      var h := Power2(k - 1);
      var a, b := Wht(k - 1, s[..h]), Wht(k - 1, s[h..]);
      Add(a, b) + Sub(a, b)
  }

  // ---------------------------------------------------------------- halves of a block

  lemma Halves(k: nat, s: seq<real>)
    requires k > 0 && |s| == Power2(k)
    ensures var h := Power2(k - 1);
            && Power2(k) as real == h as real + h as real && |s| == h + h
            && s[..h] + s[h..] == s
            && Wht(k, s) == Add(Wht(k - 1, s[..h]), Wht(k - 1, s[h..])) + Sub(Wht(k - 1, s[..h]), Wht(k - 1, s[h..]))
  {
  }

  lemma WhtOfOne(s: seq<real>)
    requires |s| == Power2(0)
    ensures Wht(0, s) == s
  {
  }

  // ---------------------------------------------------------------- products of reals

  lemma MulAdd(c: real, x: real, y: real)
    ensures Mul(c, x + y) == Mul(c, x) + Mul(c, y)
    ensures Mul(c, x - y) == Mul(c, x) - Mul(c, y)
    ensures Mul(c + c, x) == Mul(c, x) + Mul(c, x)
  {
  }

  lemma MulMul(c: real, d: real, x: real)
    ensures Mul(c, Mul(d, x)) == Mul(Mul(c, d), x)
    ensures Mul(c, d) == Mul(d, c)
  {
  }

  function Scale(c: real, a: seq<real>): (r: seq<real>)
    ensures |r| == |a| && forall i :: 0 <= i < |r| ==> r[i] == Mul(c, a[i])
  {
    seq(|a|, i requires 0 <= i < |a| => Mul(c, a[i]))
  }

  lemma ScaleAppend(c: real, a: seq<real>, b: seq<real>)
    ensures Scale(c, a + b) == Scale(c, a) + Scale(c, b)
  {
    hide Mul;
  }

  lemma ScaleAdd(c: real, a: seq<real>, b: seq<real>)
    requires |a| == |b|
    ensures Scale(c, Add(a, b)) == Add(Scale(c, a), Scale(c, b))
    ensures Scale(c, Sub(a, b)) == Sub(Scale(c, a), Scale(c, b))
    ensures Add(Scale(c, a), Scale(c, a)) == Scale(c + c, a)
  {
    hide Mul;
    forall i | 0 <= i < |a|
      ensures Scale(c, Add(a, b))[i] == Add(Scale(c, a), Scale(c, b))[i]
      ensures Scale(c, Sub(a, b))[i] == Sub(Scale(c, a), Scale(c, b))[i]
      ensures Add(Scale(c, a), Scale(c, a))[i] == Scale(c + c, a)[i]
    {
      MulAdd(c, a[i], b[i]);
    }
  }

  lemma ScaleScale(c: real, d: real, a: seq<real>)
    ensures Scale(c, Scale(d, a)) == Scale(Mul(c, d), a)
  {
    hide Mul;
    forall i | 0 <= i < |a|
      ensures Scale(c, Scale(d, a))[i] == Scale(Mul(c, d), a)[i]
    {
      MulMul(c, d, a[i]);
    }
  }

  lemma ScaleHalves(c: real, a: seq<real>, h: nat)
    requires h <= |a|
    ensures Scale(c, a)[..h] == Scale(c, a[..h]) && Scale(c, a)[h..] == Scale(c, a[h..])
  {
    hide Mul;
  }

  lemma ScaleOne(a: seq<real>)
    ensures Scale(1.0, a) == a
  {
  }

  // ---------------------------------------------------------------- its own inverse, up to scale

  lemma AddHalves(a: seq<real>, b: seq<real>, h: nat)
    requires |a| == |b| && h <= |a|
    ensures Add(a, b)[..h] == Add(a[..h], b[..h]) && Add(a, b)[h..] == Add(a[h..], b[h..])
    ensures Sub(a, b)[..h] == Sub(a[..h], b[..h]) && Sub(a, b)[h..] == Sub(a[h..], b[h..])
  {
  }

  lemma AddSwap(a: seq<real>, b: seq<real>, c: seq<real>, d: seq<real>)
    requires |a| == |b| == |c| == |d|
    ensures Add(Add(a, b), Add(c, d)) == Add(Add(a, c), Add(b, d))
    ensures Sub(Add(a, b), Add(c, d)) == Add(Sub(a, c), Sub(b, d))
    ensures Add(Sub(a, b), Sub(c, d)) == Sub(Add(a, c), Add(b, d))
    ensures Sub(Sub(a, b), Sub(c, d)) == Sub(Sub(a, c), Sub(b, d))
  {
  }

  lemma AddAppend(a: seq<real>, b: seq<real>, c: seq<real>, d: seq<real>)
    requires |a| == |b| && |c| == |d|
    ensures Add(a, b) + Add(c, d) == Add(a + c, b + d)
    ensures Sub(a, b) + Sub(c, d) == Sub(a + c, b + d)
  {
  }

  lemma {:induction false} WhtAdd(k: nat, a: seq<real>, b: seq<real>)
    requires |a| == |b| == Power2(k)
    ensures Wht(k, Add(a, b)) == Add(Wht(k, a), Wht(k, b))
    ensures Wht(k, Sub(a, b)) == Sub(Wht(k, a), Wht(k, b))
  {
    hide *;
    if k == 0 {
      WhtOfOne(a);
      WhtOfOne(b);
      WhtOfOne(Add(a, b));
      WhtOfOne(Sub(a, b));
    } else {
      var h := Power2(k - 1);
      Halves(k, a);
      Halves(k, b);
      Halves(k, Add(a, b));
      Halves(k, Sub(a, b));
      AddHalves(a, b, h);
      WhtAdd(k - 1, a[..h], b[..h]);
      WhtAdd(k - 1, a[h..], b[h..]);
      var a0, a1 := Wht(k - 1, a[..h]), Wht(k - 1, a[h..]);
      var b0, b1 := Wht(k - 1, b[..h]), Wht(k - 1, b[h..]);
      AddSwap(a0, b0, a1, b1);
      AddAppend(Add(a0, a1), Add(b0, b1), Sub(a0, a1), Sub(b0, b1));
    }
  }

  lemma {:induction false} WhtScale(k: nat, c: real, a: seq<real>)
    requires |a| == Power2(k)
    ensures Wht(k, Scale(c, a)) == Scale(c, Wht(k, a))
  {
    hide *;
    if k == 0 {
      WhtOfOne(a);
      WhtOfOne(Scale(c, a));
    } else {
      var h := Power2(k - 1);
      Halves(k, a);
      Halves(k, Scale(c, a));
      ScaleHalves(c, a, h);
      WhtScale(k - 1, c, a[..h]);
      WhtScale(k - 1, c, a[h..]);
      var p, q := Wht(k - 1, a[..h]), Wht(k - 1, a[h..]);
      ScaleAdd(c, p, q);
      ScaleAppend(c, Add(p, q), Sub(p, q));
    }
  }

  lemma SumAndDifference(x: seq<real>, y: seq<real>)
    requires |x| == |y|
    ensures Add(Add(x, y), Sub(x, y)) == Add(x, x) && Sub(Add(x, y), Sub(x, y)) == Add(y, y)
  {
  }

  lemma DoubleHalves(c: real, s: seq<real>, h: nat)
    requires h <= |s|
    ensures var x, y := Scale(c, s[..h]), Scale(c, s[h..]);
            Add(x, x) + Add(y, y) == Scale(c + c, s)
  {
    hide *;
    ScaleAdd(c, s[..h], s[..h]);
    ScaleAdd(c, s[h..], s[h..]);
    ScaleAppend(c + c, s[..h], s[h..]);
    assert s == s[..h] + s[h..];
  }

  lemma WhtBase(s: seq<real>)
    requires |s| == Power2(0)
    ensures Wht(0, Wht(0, s)) == Scale(Power2(0) as real, s)
    ensures SumSq(Wht(0, s)) == Mul(Power2(0) as real, SumSq(s))
    ensures Wht(0, s)[0] == RowSum(0, s, 0)
  {
    ScaleOne(s);
    assert s[1..] == [];
  }

  /** Two transforms multiply the block by its length. */
  lemma {:induction false} WhtTwice(k: nat, s: seq<real>)
    requires |s| == Power2(k)
    ensures Wht(k, Wht(k, s)) == Scale(Power2(k) as real, s)
  {
    hide *;
    if k == 0 {
      WhtBase(s);
    } else {
      Halves(k, s);
      var h := Power2(k - 1);
      WhtTwiceStep(k, s, Wht(k - 1, s[..h]), Wht(k - 1, s[h..]));
      WhtTwice(k - 1, s[..h]);
      WhtTwice(k - 1, s[h..]);
      DoubleHalves(h as real, s, h);
    }
  }

  lemma WhtTwiceStep(k: nat, s: seq<real>, a: seq<real>, b: seq<real>)
    requires k > 0 && |s| == Power2(k)
    requires a == Wht(k - 1, s[..Power2(k - 1)]) && b == Wht(k - 1, s[Power2(k - 1)..])
    ensures |a| == |b| == Power2(k - 1) && Power2(k) as real == Power2(k - 1) as real + Power2(k - 1) as real
    ensures var x, y := Wht(k - 1, a), Wht(k - 1, b);
            Wht(k, Wht(k, s)) == Add(x, x) + Add(y, y)
  {
    hide *;
    var h := Power2(k - 1);
    var t := Wht(k, s);
    Halves(k, s);
    Halves(k, t);
    assert t[..h] == Add(a, b) && t[h..] == Sub(a, b);
    WhtAdd(k - 1, a, b);
    SumAndDifference(Wht(k - 1, a), Wht(k - 1, b));
  }

  // ---------------------------------------------------------------- energy

  function SumSq(s: seq<real>): real {
    if s == [] then 0.0 else Mul(s[0], s[0]) + SumSq(s[1..])
  }

  lemma {:induction false} SumSqAppend(a: seq<real>, b: seq<real>)
    ensures SumSq(a + b) == SumSq(a) + SumSq(b)
  {
    hide Mul;
    if a == [] {
      assert a + b == b;
    } else {
      assert (a + b)[1..] == a[1..] + b;
      SumSqAppend(a[1..], b);
    }
  }

  lemma Squares(x: real, y: real)
    ensures Mul(x + y, x + y) + Mul(x - y, x - y) == 2.0 * Mul(x, x) + 2.0 * Mul(y, y)
  {
  }

  lemma {:induction false} Parallelogram(a: seq<real>, b: seq<real>)
    requires |a| == |b|
    ensures SumSq(Add(a, b)) + SumSq(Sub(a, b)) == 2.0 * SumSq(a) + 2.0 * SumSq(b)
  {
    hide Mul;
    if a != [] {
      assert Add(a, b)[1..] == Add(a[1..], b[1..]) && Sub(a, b)[1..] == Sub(a[1..], b[1..]);
      Parallelogram(a[1..], b[1..]);
      Squares(a[0], b[0]);
    }
  }

  /** The transform multiplies the sum of squares by the block length. */
  lemma {:induction false} WhtEnergy(k: nat, s: seq<real>)
    requires |s| == Power2(k)
    ensures SumSq(Wht(k, s)) == Mul(Power2(k) as real, SumSq(s))
  {
    hide *;
    if k == 0 {
      WhtBase(s);
    } else {
      Halves(k, s);
      var h := Power2(k - 1);
      var a, b := Wht(k - 1, s[..h]), Wht(k - 1, s[h..]);
      WhtEnergy(k - 1, s[..h]);
      WhtEnergy(k - 1, s[h..]);
      SumSqAppend(Add(a, b), Sub(a, b));
      Parallelogram(a, b);
      SumSqAppend(s[..h], s[h..]);
      MulAdd(h as real, SumSq(s[..h]), SumSq(s[h..]));
      MulAdd(h as real, SumSq(s), SumSq(s));
    }
  }

  lemma {:induction false} SumSqScale(c: real, s: seq<real>)
    ensures SumSq(Scale(c, s)) == Mul(Mul(c, c), SumSq(s))
  {
    if s != [] {
      assert Scale(c, s)[1..] == Scale(c, s[1..]);
      SumSqScale(c, s[1..]);
      SquareOfScaled(c, s[0]);
      hide Mul;
      MulAdd(Mul(c, c), Mul(s[0], s[0]), SumSq(s[1..]));
    }
  }

  lemma SquareOfScaled(c: real, x: real)
    ensures Mul(Mul(c, x), Mul(c, x)) == Mul(Mul(c, c), Mul(x, x))
  {
  }

  // ---------------------------------------------------------------- the sign matrix

  /** The number of positions where both numbers have a one bit: popcount(i & j). */
  function CommonOnes(i: nat, j: nat): nat
    decreases i
  {
    if i == 0 then 0 else (if i % 2 == 1 && j % 2 == 1 then 1 else 0) + CommonOnes(i / 2, j / 2)
  }

  /** (-1)^popcount(i & j) times x. */
  function Signed(i: nat, j: nat, x: real): real {
    if CommonOnes(i, j) % 2 == 0 then x else -x
  }

  lemma Halve(i: nat, h: nat)
    ensures (i + 2 * h) / 2 == i / 2 + h && (i + 2 * h) % 2 == i % 2
  {
  }

  lemma CommonOnesLow(i: nat, j: nat)
    ensures CommonOnes(i, j) == (if i % 2 == 1 && j % 2 == 1 then 1 else 0) + CommonOnes(i / 2, j / 2)
  {
  }

  lemma CommonOnesOfBits()
    ensures CommonOnes(0, 0) == CommonOnes(0, 1) == CommonOnes(1, 0) == 0 && CommonOnes(1, 1) == 1
  {
  }

  /** Adding the next higher bit to either index. */
  lemma {:induction false} CommonOnesHigh(k: nat, i: nat, j: nat)
    requires i < Power2(k) && j < Power2(k)
    ensures CommonOnes(i + Power2(k), j) == CommonOnes(i, j)
    ensures CommonOnes(i, j + Power2(k)) == CommonOnes(i, j)
    ensures CommonOnes(i + Power2(k), j + Power2(k)) == CommonOnes(i, j) + 1
    decreases k
  {
    hide CommonOnes;
    if k == 0 {
      CommonOnesOfBits();
    } else {
      Halve(i, Power2(k - 1));
      Halve(j, Power2(k - 1));
      CommonOnesHigh(k - 1, i / 2, j / 2);
      CommonOnesLow(i + Power2(k), j);
      CommonOnesLow(i, j + Power2(k));
      CommonOnesLow(i + Power2(k), j + Power2(k));
      CommonOnesLow(i, j);
    }
  }

  /** The product of row `i` with `s`, whose first entry has column `at`. */
  function RowSum(i: nat, s: seq<real>, at: nat): real {
    if s == [] then 0.0 else Signed(i, at, s[0]) + RowSum(i, s[1..], at + 1)
  }

  lemma {:induction false} RowSumAppend(i: nat, a: seq<real>, b: seq<real>, at: nat)
    ensures RowSum(i, a + b, at) == RowSum(i, a, at) + RowSum(i, b, at + |a|)
  {
    hide Signed;
    if a == [] {
      assert a + b == b;
    } else {
      assert (a + b)[1..] == a[1..] + b;
      RowSumAppend(i, a[1..], b, at + 1);
    }
  }

  lemma SignedHigh(k: nat, i: nat, at: nat, x: real)
    requires i < Power2(k) && at < Power2(k)
    ensures Signed(i, at + Power2(k), x) == Signed(i, at, x)
    ensures Signed(i + Power2(k), at, x) == Signed(i, at, x)
    ensures Signed(i + Power2(k), at + Power2(k), x) == -Signed(i, at, x)
  {
    CommonOnesHigh(k, i, at);
    hide CommonOnes, Power2;
  }

  /** Rows and columns of the upper half repeat the lower half, with signs flipped where
      both indices are in the upper half. */
  lemma {:induction false} RowSumHigh(k: nat, i: nat, s: seq<real>, at: nat)
    requires i < Power2(k) && at + |s| <= Power2(k)
    ensures RowSum(i, s, at + Power2(k)) == RowSum(i, s, at)
    ensures RowSum(i + Power2(k), s, at) == RowSum(i, s, at)
    ensures RowSum(i + Power2(k), s, at + Power2(k)) == -RowSum(i, s, at)
    decreases |s|
  {
    hide Signed, Power2;
    if s != [] {
      SignedHigh(k, i, at, s[0]);
      RowSumHigh(k, i, s[1..], at + 1);
      assert at + 1 + Power2(k) == at + Power2(k) + 1;
    }
  }

  /** The transform is multiplication by the matrix of signs (-1)^popcount(i & j). */
  lemma {:induction false} WhtIsMatrix(k: nat, s: seq<real>, i: nat)
    requires |s| == Power2(k) && i < |s|
    ensures Wht(k, s)[i] == RowSum(i, s, 0)
    decreases k
  {
    hide *;
    if k == 0 {
      assert i == 0 by { assert |s| == 1 by { Power2Zero(); } }
      WhtBase(s);
    } else {
      Halves(k, s);
      var h := Power2(k - 1);
      var row := if i < h then i else i - h;
      WhtIsMatrix(k - 1, s[..h], row);
      WhtIsMatrix(k - 1, s[h..], row);
      RowSumAppend(i, s[..h], s[h..], 0);
      RowSumHigh(k - 1, row, s[..h], 0);
      RowSumHigh(k - 1, row, s[h..], 0);
    }
  }

  lemma Power2Zero()
    ensures Power2(0) == 1
  {
  }

  // ---------------------------------------------------------------- passes over a block

  /** `n` splits into whole runs of `w`. */
  predicate Splits(n: nat, w: nat)
    requires w > 0
    decreases n
  {
    n == 0 || (n >= w && Splits(n - w, w))
  }

  lemma {:induction false} SplitsFiner(n: nat, w: nat)
    requires w > 0 && Splits(n, 2 * w)
    ensures Splits(n, w)
    decreases n
  {
    if n > 0 {
      SplitsFiner(n - 2 * w, w);
      assert Splits(n - w, w);
    }
  }

  /** `q` whole runs of `w`. */
  lemma {:induction false} SplitsOfRuns(q: nat, w: nat)
    requires w > 0
    ensures Splits(q * w, w)
    decreases q
  {
    if q > 0 {
      assert q * w == (q - 1) * w + w;
      SplitsOfRuns(q - 1, w);
    }
  }

  function Butterfly(a: seq<real>, b: seq<real>): (r: seq<real>)
    requires |a| == |b|
    ensures |r| == 2 * |a|
  {
    Add(a, b) + Sub(a, b)
  }

  /** One butterfly pass: every aligned pair of runs of `width` becomes sums and differences. */
  function Pass(s: seq<real>, width: nat): (r: seq<real>)
    requires width > 0 && Splits(|s|, 2 * width)
    ensures |r| == |s|
  {
    if s == [] then []
    else Butterfly(s[..width], s[width..2 * width]) + Pass(s[2 * width..], width)
  }

  /** Consecutive chunks of 2^j entries, each transformed. */
  function Chunks(j: nat, s: seq<real>): (r: seq<real>)
    requires Splits(|s|, Power2(j))
    ensures |r| == |s|
  {
    if s == [] then [] else Wht(j, s[..Power2(j)]) + Chunks(j, s[Power2(j)..])
  }

  lemma {:induction false} ChunksOfOne(s: seq<real>)
    requires Splits(|s|, Power2(0))
    ensures Chunks(0, s) == s
  {
    if s != [] {
      ChunksOfOne(s[1..]);
    }
  }

  lemma {:induction false} OneChunk(k: nat, s: seq<real>)
    requires |s| == Power2(k)
    ensures Splits(|s|, Power2(k)) && Chunks(k, s) == Wht(k, s)
  {
    assert s[..Power2(k)] == s && s[Power2(k)..] == [];
    assert Chunks(k, []) == [];
  }

  /** A pass of width 2^j takes transforms of 2^j entries to transforms of 2^(j+1). */
  lemma {:induction false} PassDoubles(j: nat, s: seq<real>)
    requires Splits(|s|, Power2(j + 1)) && Splits(|s|, Power2(j))
    ensures Pass(Chunks(j, s), Power2(j)) == Chunks(j + 1, s)
    decreases |s|
  {
    if s != [] {
      var w := Power2(j);
      var rest := s[2 * w..];
      assert Splits(|s| - w, w) && Splits(|s| - 2 * w, w);
      assert s[w..][..w] == s[w..2 * w] && s[w..][w..] == rest;
      assert s[..2 * w][..w] == s[..w] && s[..2 * w][w..] == s[w..2 * w];
      var a, b := Wht(j, s[..w]), Wht(j, s[w..2 * w]);
      assert Chunks(j, s[w..]) == b + Chunks(j, rest);
      var c := a + b + Chunks(j, rest);
      assert Chunks(j, s) == c;
      assert c[..w] == a && c[w..2 * w] == b && c[2 * w..] == Chunks(j, rest);
      PassDoubles(j, rest);
    }
  }
}
