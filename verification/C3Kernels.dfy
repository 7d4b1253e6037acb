/** Matrix-vector products over 3-bit codes: the byte form and four packed forms, in exact
    arithmetic. A code selects one of eight levels. */
module C3Kernels {
  import opened Bytes
  import opened BitStream
  import opened C3Pack
  import opened Common

  // ---------------------------------------------------------------- what a row computes

  function Term(levels: seq<real>, code: nat, x: real): real
    requires |levels| >= 8
  {
    Mul(levels[code % 8], x)
  }

  /** The sum of level times input over the first `n` columns. */
  function Dot(levels: seq<real>, codes: seq<nat>, x: seq<real>, n: nat): real
    requires |levels| >= 8 && n <= |codes| && n <= |x|
  {
    if n == 0 then 0.0
    else Dot(levels, codes, x, n - 1) + Term(levels, codes[n - 1], x[n - 1])
  }

  /** What the columns from `from` to `n` add. */
  function Tail(levels: seq<real>, codes: seq<nat>, x: seq<real>, from: nat, n: nat): real
    requires |levels| >= 8 && from <= n <= |codes| && n <= |x|
    decreases n - from
  {
    if from == n then 0.0
    else Tail(levels, codes, x, from, n - 1) + Term(levels, codes[n - 1], x[n - 1])
  }

  lemma {:induction false} DotSplits(levels: seq<real>, codes: seq<nat>, x: seq<real>, from: nat,
                                     n: nat)
    requires |levels| >= 8 && from <= n <= |codes| && n <= |x|
    ensures Dot(levels, codes, x, n) == Dot(levels, codes, x, from) + Tail(levels, codes, x, from, n)
    decreases n
  {
    hide Term;
    if from < n {
      DotSplits(levels, codes, x, from, n - 1);
    }
  }

  lemma {:induction false} DotSame(levels: seq<real>, a: seq<nat>, b: seq<nat>, x: seq<real>, n: nat)
    requires |levels| >= 8 && n <= |a| && n <= |b| && n <= |x|
    requires forall k :: 0 <= k < n ==> a[k] % 8 == b[k] % 8
    ensures Dot(levels, a, x, n) == Dot(levels, b, x, n)
  {
    hide Mul;
    if n > 0 {
      DotSame(levels, a, b, x, n - 1);
    }
  }

  /** An input that is 1 in one column and 0 elsewhere picks that column's level. */
  lemma {:induction false} DotOfUnit(levels: seq<real>, codes: seq<nat>, x: seq<real>, n: nat, j: nat)
    requires |levels| >= 8 && n <= |codes| && n <= |x|
    requires forall k :: 0 <= k < n ==> x[k] == if k == j then 1.0 else 0.0
    ensures Dot(levels, codes, x, n) == if j < n then levels[codes[j] % 8] else 0.0
  {
    if n > 0 {
      DotOfUnit(levels, codes, x, n - 1, j);
      ZeroOne(levels[codes[n - 1] % 8]);
    }
  }

  lemma ZeroOne(a: real)
    ensures Mul(a, 0.0) == 0.0 && Mul(a, 1.0) == a
  {
  }

  /** The sum is linear in the input. */
  lemma {:induction false} DotIsLinear(levels: seq<real>, codes: seq<nat>, x: seq<real>, y: seq<real>,
                                       z: seq<real>, a: real, n: nat)
    requires |levels| >= 8 && n <= |codes| && n <= |x| && n <= |y| && n <= |z|
    requires forall k :: 0 <= k < n ==> z[k] == x[k] + Mul(a, y[k])
    ensures Dot(levels, codes, z, n) == Dot(levels, codes, x, n) + Mul(a, Dot(levels, codes, y, n))
  {
    hide Mul;
    if n == 0 {
      ZeroOne(a);
    } else {
      DotIsLinear(levels, codes, x, y, z, a, n - 1);
      TermIsLinear(levels[codes[n - 1] % 8], x[n - 1], y[n - 1], a, Dot(levels, codes, y, n - 1));
    }
  }

  lemma TermIsLinear(l: real, x: real, y: real, a: real, d: real)
    ensures Mul(l, x + Mul(a, y)) == Mul(l, x) + Mul(a, Mul(l, y))
    ensures Mul(a, d + Mul(l, y)) == Mul(a, d) + Mul(a, Mul(l, y))
  {
    assert l * (a * y) == a * (l * y);
  }

  /** The eight products of one group. */
  function Products(levels: seq<real>, codes: seq<nat>, x: seq<real>, from: nat): (p: seq<real>)
    requires |levels| >= 8 && from + 8 <= |codes| && from + 8 <= |x|
    ensures |p| == 8
  {
    seq(8, i requires 0 <= i < 8 => Term(levels, codes[from + i], x[from + i]))
  }

  function Sum8(v: seq<real>): real
    requires |v| == 8
  {
    v[0] + v[1] + v[2] + v[3] + v[4] + v[5] + v[6] + v[7]
  }

  lemma {:induction false} DotGroup(levels: seq<real>, codes: seq<nat>, x: seq<real>, n: nat)
    requires |levels| >= 8 && n + 8 <= |codes| && n + 8 <= |x|
    ensures Dot(levels, codes, x, n + 8)
            == Dot(levels, codes, x, n) + Sum8(Products(levels, codes, x, n))
  {
    hide Term;
    var p := Products(levels, codes, x, n);
    assert Dot(levels, codes, x, n + 2) == Dot(levels, codes, x, n) + p[0] + p[1];
    assert Dot(levels, codes, x, n + 4) == Dot(levels, codes, x, n + 2) + p[2] + p[3];
    assert Dot(levels, codes, x, n + 6) == Dot(levels, codes, x, n + 4) + p[4] + p[5];
    assert Dot(levels, codes, x, n + 8) == Dot(levels, codes, x, n + 6) + p[6] + p[7];
  }

  /** The dot product of a packed row. */
  function PackedDot(levels: seq<real>, row: seq<Byte>, x: seq<real>, groups: nat): real
    requires |levels| >= 8 && 3 * groups <= |row| && 8 * groups <= |x|
  {
    Dot(levels, RowCodes(row, groups), x, 8 * groups)
  }

  function AsNats(codes: seq<Byte>): (c: seq<nat>)
    ensures |c| == |codes| && forall i :: 0 <= i < |c| ==> c[i] == codes[i]
  {
    seq<nat>(|codes|, i requires 0 <= i < |codes| => codes[i])
  }

  // ---------------------------------------------------------------- one row, five ways

  method RowByte(codes: seq<Byte>, levels: seq<real>, x: seq<real>, cols: nat) returns (sum: real)
    requires |levels| >= 8 && cols <= |codes| && cols <= |x|
    ensures sum == Dot(levels, AsNats(codes), x, cols)
  {
    hide Mul;
    sum := 0.0;
    var c := 0;
    while c < cols
      invariant 0 <= c <= cols && sum == Dot(levels, AsNats(codes), x, c)
    {
      sum := sum + Mul(levels[codes[c] % 8], x[c]);
      c := c + 1;
    }
  }

  /** The products of one group, read from the lanes of a word. */
  lemma GroupProducts(levels: seq<real>, row: seq<Byte>, x: seq<real>, groups: nat, g: nat, i: nat)
    requires |levels| >= 8 && 3 * groups <= |row| && 8 * groups <= |x| && g < groups && i < 8
    ensures Term(levels, Lane(Word24(row, 3 * g), i), x[8 * g + i])
            == Products(levels, RowCodes(row, groups), x, 8 * g)[i]
  {
    hide Term, Word24, RowCodes, Lane;
    WordLane(row, groups, g, i);
  }

  lemma PairProducts(levels: seq<real>, row: seq<Byte>, x: seq<real>, groups: nat, g: nat, i: nat)
    requires |levels| >= 8 && 3 * groups <= |row| && 8 * groups <= |x| && g + 1 < groups && i < 16
    ensures Term(levels, Lane(FromLe(row[3 * g..3 * g + 6]), i), x[8 * g + i])
            == if i < 8 then Products(levels, RowCodes(row, groups), x, 8 * g)[i]
               else Products(levels, RowCodes(row, groups), x, 8 * g + 8)[i - 8]
  {
    hide Term, FromLe, RowCodes, Lane;
    LaneIsCode(row, groups, g, 6, i);
  }

  method RowScalar(row: seq<Byte>, levels: seq<real>, x: seq<real>, groups: nat) returns (sum: real)
    requires |levels| >= 8 && 3 * groups <= |row| && 8 * groups <= |x|
    ensures sum == PackedDot(levels, row, x, groups)
  {
    hide Term, Word24, RowCodes, Lane, Products;
    sum := 0.0;
    ghost var codes := RowCodes(row, groups);
    var g := 0;
    while g < groups
      invariant 0 <= g <= groups && sum == Dot(levels, codes, x, 8 * g)
    {
      var u := Word24(row, 3 * g);
      ghost var p := Products(levels, codes, x, 8 * g);
      forall i | 0 <= i < 8 ensures Term(levels, Lane(u, i), x[8 * g + i]) == p[i] {
        GroupProducts(levels, row, x, groups, g, i);
      }
      DotGroup(levels, codes, x, 8 * g);
      sum := sum + Term(levels, Lane(u, 0), x[8 * g + 0]);
      sum := sum + Term(levels, Lane(u, 1), x[8 * g + 1]);
      sum := sum + Term(levels, Lane(u, 2), x[8 * g + 2]);
      sum := sum + Term(levels, Lane(u, 3), x[8 * g + 3]);
      sum := sum + Term(levels, Lane(u, 4), x[8 * g + 4]);
      sum := sum + Term(levels, Lane(u, 5), x[8 * g + 5]);
      sum := sum + Term(levels, Lane(u, 6), x[8 * g + 6]);
      sum := sum + Term(levels, Lane(u, 7), x[8 * g + 7]);
      g := g + 1;
    }
  }

  /** Two groups at a time from a six-byte word. An odd number of groups would read past the row. */
  method RowPaired(row: seq<Byte>, levels: seq<real>, x: seq<real>, groups: nat) returns (sum: real)
    requires |levels| >= 8 && 3 * groups <= |row| && 8 * groups <= |x| && groups % 2 == 0
    ensures sum == PackedDot(levels, row, x, groups)
  {
    hide Term, FromLe, RowCodes, Lane, Products;
    sum := 0.0;
    ghost var codes := RowCodes(row, groups);
    var g := 0;
    while g < groups
      invariant 0 <= g <= groups && g % 2 == 0 && sum == Dot(levels, codes, x, 8 * g)
    {
      var u := FromLe(row[3 * g..3 * g + 6]);
      ghost var p, q := Products(levels, codes, x, 8 * g), Products(levels, codes, x, 8 * g + 8);
      ghost var start := sum;
      var i := 0;
      while i < 16
        invariant 0 <= i <= 16 && sum == start + Partial(p, q, i)
      {
        PairProducts(levels, row, x, groups, g, i);
        sum := sum + Term(levels, Lane(u, i), x[8 * g + i]);
        i := i + 1;
      }
      PartialIsSum(p, q);
      DotGroup(levels, codes, x, 8 * g);
      DotGroup(levels, codes, x, 8 * g + 8);
      g := g + 2;
    }
  }

  function Partial(p: seq<real>, q: seq<real>, n: nat): real
    requires |p| == |q| == 8 && n <= 16
  {
    if n == 0 then 0.0 else Partial(p, q, n - 1) + if n <= 8 then p[n - 1] else q[n - 9]
  }

  lemma PartialIsSum(p: seq<real>, q: seq<real>)
    requires |p| == |q| == 8
    ensures Partial(p, q, 16) == Sum8(p) + Sum8(q)
  {
    assert Partial(p, q, 1) == p[0];
    assert Partial(p, q, 2) == p[0] + p[1];
    assert Partial(p, q, 4) == Partial(p, q, 2) + p[2] + p[3];
    assert Partial(p, q, 6) == Partial(p, q, 4) + p[4] + p[5];
    assert Partial(p, q, 8) == Partial(p, q, 6) + p[6] + p[7];
    assert Partial(p, q, 10) == Partial(p, q, 8) + q[0] + q[1];
    assert Partial(p, q, 12) == Partial(p, q, 10) + q[2] + q[3];
    assert Partial(p, q, 14) == Partial(p, q, 12) + q[4] + q[5];
    assert Partial(p, q, 16) == Partial(p, q, 14) + q[6] + q[7];
  }

  /** Lane-wise multiply and add. */
  function FusedAdd(w: seq<real>, x: seq<real>, acc: seq<real>): (r: seq<real>)
    requires |w| == |x| == |acc| == 8
    ensures |r| == 8
  {
    seq(8, i requires 0 <= i < 8 => acc[i] + Mul(w[i], x[i]))
  }

  /** The levels picked by eight lanes of a word, from lane `from` on. */
  function Gather(levels: seq<real>, u: nat, from: nat): (w: seq<real>)
    requires |levels| >= 8
    ensures |w| == 8
  {
    seq(8, i requires 0 <= i < 8 => levels[Lane(u, from + i) % 8])
  }

  function PairwiseAdd(a: seq<real>, b: seq<real>): seq<real>
    requires |a| == |b| == 4
  {
    [a[0] + a[1], a[2] + a[3], b[0] + b[1], b[2] + b[3]]
  }

  /** Low half plus high half, then two pairwise additions; the first lane is the result. */
  function HorizontalSum(acc: seq<real>): real
    requires |acc| == 8
  {
    var s := [acc[0] + acc[4], acc[1] + acc[5], acc[2] + acc[6], acc[3] + acc[7]];
    var t := PairwiseAdd(s, s);
    PairwiseAdd(t, t)[0]
  }

  lemma HorizontalIsSum(acc: seq<real>)
    requires |acc| == 8
    ensures HorizontalSum(acc) == Sum8(acc)
  {
  }

  lemma FusedSum(w: seq<real>, x: seq<real>, acc: seq<real>, p: seq<real>)
    requires |w| == |x| == |acc| == |p| == 8 && forall i :: 0 <= i < 8 ==> Mul(w[i], x[i]) == p[i]
    ensures Sum8(FusedAdd(w, x, acc)) == Sum8(acc) + Sum8(p)
  {
    hide Mul;
  }

  lemma ZeroSum()
    ensures Sum8(seq(8, _ => 0.0)) == 0.0
  {
  }

  method RowLanes(row: seq<Byte>, levels: seq<real>, x: seq<real>, groups: nat) returns (sum: real)
    requires |levels| >= 8 && 3 * groups <= |row| && 8 * groups <= |x|
    ensures sum == PackedDot(levels, row, x, groups)
  {
    hide Mul, Word24, RowCodes, Lane, Products, FusedAdd, Sum8, HorizontalSum;
    var acc: seq<real> := seq(8, _ => 0.0);
    ZeroSum();
    ghost var codes := RowCodes(row, groups);
    var g := 0;
    while g < groups
      invariant 0 <= g <= groups && |acc| == 8 && Sum8(acc) == Dot(levels, codes, x, 8 * g)
    {
      var u := Word24(row, 3 * g);
      var w, v := Gather(levels, u, 0), x[8 * g..8 * g + 8];
      ghost var p := Products(levels, codes, x, 8 * g);
      forall i | 0 <= i < 8 ensures Mul(w[i], v[i]) == p[i] {
        GroupProducts(levels, row, x, groups, g, i);
      }
      FusedSum(w, v, acc, p);
      DotGroup(levels, codes, x, 8 * g);
      acc := FusedAdd(w, v, acc);
      g := g + 1;
    }
    HorizontalIsSum(acc);
    sum := HorizontalSum(acc);
  }

  method RowPairedLanes(row: seq<Byte>, levels: seq<real>, x: seq<real>, groups: nat)
      returns (sum: real)
    requires |levels| >= 8 && 3 * groups <= |row| && 8 * groups <= |x| && groups % 2 == 0
    ensures sum == PackedDot(levels, row, x, groups)
  {
    hide Mul, FromLe, RowCodes, Lane, Products, FusedAdd, Sum8, HorizontalSum;
    var acc0: seq<real>, acc1: seq<real> := seq(8, _ => 0.0), seq(8, _ => 0.0);
    ZeroSum();
    ghost var codes := RowCodes(row, groups);
    var g := 0;
    while g < groups
      invariant 0 <= g <= groups && g % 2 == 0 && |acc0| == |acc1| == 8
      invariant Sum8(acc0) + Sum8(acc1) == Dot(levels, codes, x, 8 * g)
    {
      var u := FromLe(row[3 * g..3 * g + 6]);
      var w0, w1 := Gather(levels, u, 0), Gather(levels, u, 8);
      var x0, x1 := x[8 * g..8 * g + 8], x[8 * (g + 1)..8 * (g + 1) + 8];
      ghost var p, q := Products(levels, codes, x, 8 * g), Products(levels, codes, x, 8 * g + 8);
      forall i | 0 <= i < 8 ensures Mul(w0[i], x0[i]) == p[i] && Mul(w1[i], x1[i]) == q[i] {
        PairProducts(levels, row, x, groups, g, i);
        PairProducts(levels, row, x, groups, g, i + 8);
      }
      FusedSum(w0, x0, acc0, p);
      FusedSum(w1, x1, acc1, q);
      DotGroup(levels, codes, x, 8 * g);
      DotGroup(levels, codes, x, 8 * g + 8);
      acc0, acc1 := FusedAdd(w0, x0, acc0), FusedAdd(w1, x1, acc1);
      g := g + 2;
    }
    var acc := seq(8, i requires 0 <= i < 8 => acc0[i] + acc1[i]);
    AddSum(acc0, acc1, acc);
    HorizontalIsSum(acc);
    sum := HorizontalSum(acc);
  }

  lemma AddSum(a: seq<real>, b: seq<real>, c: seq<real>)
    requires |a| == |b| == |c| == 8 && forall i :: 0 <= i < 8 ==> c[i] == a[i] + b[i]
    ensures Sum8(c) == Sum8(a) + Sum8(b)
  {
  }

  // ---------------------------------------------------------------- all rows

  datatype Kernel = Scalar | Bmi2 | Avx2 | Avx2Unrolled

  function RowSlice(data: seq<Byte>, r: nat, size: nat): (row: seq<Byte>)
    requires r * size >= 0 && r * size + size <= |data|
    ensures |row| == size && forall c :: 0 <= c < size ==> row[c] == data[r * size + c]
  {
    data[r * size..r * size + size]
  }

  lemma RowInside(r: nat, rows: nat, size: nat, length: nat)
    requires r < rows && rows * size <= length
    ensures r * size >= 0 && r * size + size <= length
  {
    MultiplesApart(r, rows, size);
    ShlIsTimes(size, 0);
  }

  method MatvecPacked(kernel: Kernel, packed: seq<Byte>, levels: seq<real>, x: seq<real>,
                      y: array<real>, rows: nat, cols: nat)
    requires |levels| >= 8 && |x| >= cols && y.Length >= rows && rows * (cols * 3 / 8) <= |packed|
    requires kernel.Bmi2? || kernel.Avx2Unrolled? ==> cols / 8 % 2 == 0
    modifies y
    ensures forall r :: 0 <= r < rows ==>
      r * (cols * 3 / 8) >= 0 && r * (cols * 3 / 8) + cols * 3 / 8 <= |packed|
      && y[r] == PackedDot(levels, RowSlice(packed, r, cols * 3 / 8), x, cols / 8)
    ensures forall r :: rows <= r < y.Length ==> y[r] == old(y[r])
  {
    hide PackedDot;
    var bytesPerRow, groups := cols * 3 / 8, cols / 8;
    var r := 0;
    while r < rows
      invariant 0 <= r <= rows
      invariant forall k :: 0 <= k < r ==>
        k * bytesPerRow >= 0 && k * bytesPerRow + bytesPerRow <= |packed|
        && y[k] == PackedDot(levels, RowSlice(packed, k, bytesPerRow), x, groups)
      invariant forall k :: rows <= k < y.Length ==> y[k] == old(y[k])
    {
      RowInside(r, rows, bytesPerRow, |packed|);
      var row := RowSlice(packed, r, bytesPerRow);
      var sum: real;
      match kernel {
        case Scalar => sum := RowScalar(row, levels, x, groups);
        case Bmi2 => sum := RowPaired(row, levels, x, groups);
        case Avx2 => sum := RowLanes(row, levels, x, groups);
        case Avx2Unrolled => sum := RowPairedLanes(row, levels, x, groups);
      }
      y[r] := sum;
      r := r + 1;
    }
  }

  method MatvecByte(codes: seq<Byte>, levels: seq<real>, x: seq<real>, y: array<real>, rows: nat,
                    cols: nat)
    requires |levels| >= 8 && |x| >= cols && y.Length >= rows && rows * cols <= |codes|
    modifies y
    ensures forall r :: 0 <= r < rows ==>
      r * cols >= 0 && r * cols + cols <= |codes|
      && y[r] == Dot(levels, AsNats(RowSlice(codes, r, cols)), x, cols)
    ensures forall r :: rows <= r < y.Length ==> y[r] == old(y[r])
  {
    hide Dot;
    var r := 0;
    while r < rows
      invariant 0 <= r <= rows
      invariant forall k :: 0 <= k < r ==>
        k * cols >= 0 && k * cols + cols <= |codes|
        && y[k] == Dot(levels, AsNats(RowSlice(codes, k, cols)), x, cols)
      invariant forall k :: rows <= k < y.Length ==> y[k] == old(y[k])
    {
      RowInside(r, rows, cols, |codes|);
      y[r] := RowByte(RowSlice(codes, r, cols), levels, x, cols);
      r := r + 1;
    }
  }

  // ---------------------------------------------------------------- agreement

  /** A row packed by the 3-bit packer gives the packed kernels the sum of the byte kernel over the
      whole groups: the two results differ by what the columns beyond them add. */
  lemma PackedAgreesExactly(codes: seq<Byte>, row: seq<Byte>, levels: seq<real>, x: seq<real>)
    requires |levels| >= 8 && |x| >= |codes|
    requires row == PackBits(CodeBits(Masked(codes[..8 * (|codes| / 8)]), 3))
    ensures |row| == 3 * (|codes| / 8)
    ensures var packed := PackedDot(levels, row, x, |codes| / 8);
            var byte_ := Dot(levels, AsNats(codes), x, |codes|);
            && (packed == byte_
                <==> Tail(levels, AsNats(codes), x, 8 * (|codes| / 8), |codes|) == 0.0)
            && (|codes| % 8 == 0 ==> packed == byte_)
  {
    hide PackBits, CodeBits, RowCodes, Dot, Term, Tail, Masked, AsNats;
    var groups := |codes| / 8;
    var whole := 8 * groups;
    var masked := Masked(codes[..whole]);
    PackedRowCodes(masked, groups);
    MaskedDot(levels, codes, x, whole);
    DotSplits(levels, AsNats(codes), x, whole, |codes|);
    if whole == |codes| {
      NoTail(levels, AsNats(codes), x, whole);
    }
  }

  /** What the 3-bit packer writes for a row: its whole groups. */
  function PackedRow(codes: seq<Byte>): (row: seq<Byte>)
    ensures |row| == 3 * (|codes| / 8)
  {
    var masked := Masked(codes[..8 * (|codes| / 8)]);
    PackedRowCodes(masked, |codes| / 8);
    PackBits(CodeBits(masked, 3))
  }

  /** The packed kernels and the byte kernel give the same sum on one row. */
  predicate SameSum(codes: seq<Byte>, levels: seq<real>, x: seq<real>)
    requires |levels| >= 8 && |x| >= |codes|
  {
    PackedDot(levels, PackedRow(codes), x, |codes| / 8) == Dot(levels, AsNats(codes), x, |codes|)
  }

  ghost predicate AlwaysSameSum(cols: nat) {
    forall codes: seq<Byte>, levels: seq<real>, x: seq<real> ::
      |codes| == cols && |levels| >= 8 && |x| >= cols ==> SameSum(codes, levels, x)
  }

  /** With all levels and inputs 1, every column adds 1. */
  lemma {:induction false} TailOfOnes(codes: seq<nat>, levels: seq<real>, x: seq<real>, from: nat, n: nat)
    requires |levels| == 8 && (forall i :: 0 <= i < 8 ==> levels[i] == 1.0)
    requires from <= n <= |codes| && n <= |x| && forall i :: 0 <= i < |x| ==> x[i] == 1.0
    ensures Tail(levels, codes, x, from, n) == (n - from) as real
    decreases n - from
  {
    if from < n {
      TailOfOnes(codes, levels, x, from, n - 1);
    }
  }

  /** The packed kernels agree with the byte kernel on all rows of a width, for all levels and
      inputs, if and only if the width is a multiple of eight. */
  lemma WidthsThatAgree(cols: nat)
    ensures AlwaysSameSum(cols) <==> cols % 8 == 0
  {
    hide PackedRow, PackedDot, Dot, Tail;
    if cols % 8 == 0 {
      forall codes: seq<Byte>, levels: seq<real>, x: seq<real>
        | |codes| == cols && |levels| >= 8 && |x| >= cols
        ensures SameSum(codes, levels, x)
      {
        PackedRowIs(codes);
        PackedAgreesExactly(codes, PackedRow(codes), levels, x);
      }
    } else {
      var codes: seq<Byte> := seq(cols, _ => 0);
      var ones, x := seq(8, _ => 1.0), seq(cols, _ => 1.0);
      PackedRowIs(codes);
      PackedAgreesExactly(codes, PackedRow(codes), ones, x);
      TailOfOnes(AsNats(codes), ones, x, 8 * (cols / 8), cols);
      assert !SameSum(codes, ones, x);
    }
  }

  lemma PackedRowIs(codes: seq<Byte>)
    ensures PackedRow(codes) == PackBits(CodeBits(Masked(codes[..8 * (|codes| / 8)]), 3))
  {
  }

  lemma NoTail(levels: seq<real>, codes: seq<nat>, x: seq<real>, n: nat)
    requires |levels| >= 8 && n <= |codes| && n <= |x|
    ensures Tail(levels, codes, x, n, n) == 0.0
  {
  }

  lemma MaskedDot(levels: seq<real>, codes: seq<Byte>, x: seq<real>, n: nat)
    requires |levels| >= 8 && n <= |codes| && n <= |x|
    ensures Dot(levels, Masked(codes[..n]), x, n) == Dot(levels, AsNats(codes), x, n)
  {
    hide Dot;
    DotSame(levels, Masked(codes[..n]), AsNats(codes), x, n);
  }
}
