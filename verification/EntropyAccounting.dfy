/** Code lengths per symbol of a value sequence, the bits they account for, and what these bits
    are: the length of a stream that can be decoded in one way only. */
module EntropyAccounting {
  import opened Common
  import opened PrefixCode

  // ---------------------------------------------------------------- histograms

  function Count(values: seq<nat>, symbol: nat): nat {
    if values == [] then 0
    else (if values[0] == symbol then 1 else 0) + Count(values[1..], symbol)
  }

  function Without(values: seq<nat>, symbol: nat): (rest: seq<nat>)
    ensures |rest| <= |values| && symbol !in rest
    ensures forall v :: v in rest <==> v in values && v != symbol
  {
    if values == [] then []
    else if values[0] == symbol then Without(values[1..], symbol)
    else [values[0]] + Without(values[1..], symbol)
  }

  /** The distinct values. */
  function Unique(values: seq<nat>): (symbols: seq<nat>)
    ensures forall v :: v in symbols <==> v in values
    ensures forall i, j :: 0 <= i < j < |symbols| ==> symbols[i] != symbols[j]
    decreases |values|
  {
    if values == [] then []
    else
      var rest := Without(values[1..], values[0]);
      [values[0]] + Unique(rest)
  }

  lemma {:induction false} CountPositive(values: seq<nat>, symbol: nat)
    ensures Count(values, symbol) > 0 <==> symbol in values
  {
    if values != [] {
      CountPositive(values[1..], symbol);
    }
  }

  lemma {:induction false} CountIsMultiplicity(values: seq<nat>, symbol: nat)
    ensures Count(values, symbol) == multiset(values)[symbol]
  {
    if values != [] {
      CountIsMultiplicity(values[1..], symbol);
      assert values == [values[0]] + values[1..];
    }
  }

  lemma {:induction false} CountWithout(values: seq<nat>, symbol: nat, other: nat)
    requires other != symbol
    ensures Count(Without(values, symbol), other) == Count(values, other)
  {
    if values != [] {
      CountWithout(values[1..], symbol, other);
      if values[0] != symbol {
        assert Without(values, symbol)[1..] == Without(values[1..], symbol);
      }
    }
  }

  /** The sum of `f` over all values, and the same sum taken symbol by symbol. */
  function SumOver(values: seq<nat>, f: nat -> nat): nat {
    if values == [] then 0 else f(values[0]) + SumOver(values[1..], f)
  }

  function Times(k: nat, x: nat): nat {
    k * x
  }

  function SumBySymbol(symbols: seq<nat>, values: seq<nat>, f: nat -> nat): nat {
    if symbols == [] then 0
    else Times(Count(values, symbols[0]), f(symbols[0])) + SumBySymbol(symbols[1..], values, f)
  }

  lemma {:induction false} SumSplits(values: seq<nat>, symbol: nat, f: nat -> nat)
    ensures SumOver(values, f)
            == Times(Count(values, symbol), f(symbol)) + SumOver(Without(values, symbol), f)
  {
    if values != [] {
      SumSplits(values[1..], symbol, f);
      if values[0] != symbol {
        assert Without(values, symbol)[1..] == Without(values[1..], symbol);
      }
    }
  }

  lemma {:induction false} SumForget(symbols: seq<nat>, values: seq<nat>, symbol: nat, f: nat -> nat)
    requires symbol !in symbols
    ensures SumBySymbol(symbols, Without(values, symbol), f) == SumBySymbol(symbols, values, f)
  {
    hide Times;
    if symbols != [] {
      CountWithout(values, symbol, symbols[0]);
      SumForget(symbols[1..], values, symbol, f);
    }
  }

  lemma {:induction false} SumRegroups(values: seq<nat>, f: nat -> nat)
    ensures SumBySymbol(Unique(values), values, f) == SumOver(values, f)
    decreases |values|
  {
    hide Times, Count;
    if values != [] {
      var symbol := values[0];
      var rest := Without(values[1..], symbol);
      assert Without(values, symbol) == rest;
      SumRegroups(rest, f);
      SumForget(Unique(rest), values, symbol, f);
      SumSplits(values, symbol, f);
      assert Unique(values)[1..] == Unique(rest);
    }
  }

  // ---------------------------------------------------------------- lengths per symbol

  function SymbolLength(values: seq<nat>, symbol: nat): (l: nat)
    ensures symbol in values ==> l >= 1
  {
    CountPositive(values, symbol);
    if symbol in values then CodeLength(Count(values, symbol), |values|) else 0
  }

  function LengthTable(values: seq<nat>): map<nat, nat> {
    map s | s in values :: SymbolLength(values, s)
  }

  function LengthOf(values: seq<nat>): nat -> nat {
    s => SymbolLength(values, s)
  }

  /** Each symbol's length is the least of at least 1 for which its occurrences times 2^length reach the
      number of values. */
  lemma SymbolLengthLeast(values: seq<nat>, symbol: nat)
    requires symbol in values
    ensures symbol in LengthTable(values)
    ensures var l, c := LengthTable(values)[symbol], multiset(values)[symbol];
            && l >= 1 && c * Power2(l) >= |values|
            && (l > 1 ==> c * Power2(l - 1) < |values|)
  {
    hide CodeLength, Count, Power2;
    CountPositive(values, symbol);
    CountIsMultiplicity(values, symbol);
    CodeLengthLeast(Count(values, symbol), |values|);
  }

  /** Occurrences times length, over all symbols. */
  function PayloadBits(values: seq<nat>): nat {
    SumBySymbol(Unique(values), values, LengthOf(values))
  }

  function TableOf(symbols: seq<nat>, values: seq<nat>): map<nat, nat> {
    map s | s in symbols :: SymbolLength(values, s)
  }

  lemma EmptyTable(values: seq<nat>)
    ensures TableOf([], values) == map[]
  {
  }

  lemma TableGrows(symbols: seq<nat>, values: seq<nat>, s: nat)
    ensures TableOf(symbols + [s], values) == TableOf(symbols, values)[s := SymbolLength(values, s)]
  {
    hide SymbolLength;
  }

  lemma WholeTable(values: seq<nat>)
    ensures TableOf(Unique(values), values) == LengthTable(values)
  {
    hide SymbolLength, Unique;
  }

  /** The lengths and the header bits that `huffman_lengths` returns; the lengths built by its heap
      walk are overwritten and play no part. */
  method HuffmanLengths(values: seq<nat>) returns (lengths: map<nat, nat>, headerBits: nat)
    ensures lengths == LengthTable(values)
    ensures headerBits == if |Unique(values)| == 1 then 8 else 12 * |Unique(values)|
  {
    hide *;
    var symbols := Unique(values);
    if |symbols| == 1 {
      OneSymbol(values);
      lengths := map[symbols[0] := 1];
      return lengths, 8;
    }
    lengths := map[];
    EmptyTable(values);
    var i := 0;
    while i < |symbols|
      invariant 0 <= i <= |symbols|
      invariant lengths == TableOf(symbols[..i], values)
    {
      TableGrows(symbols[..i], values, symbols[i]);
      lengths := lengths[symbols[i] := SymbolLength(values, symbols[i])];
      assert symbols[..i + 1] == symbols[..i] + [symbols[i]];
      i := i + 1;
    }
    assert symbols[..i] == symbols;
    WholeTable(values);
    return lengths, |symbols| * 12;
  }

  lemma {:induction false} CountAll(values: seq<nat>, symbol: nat)
    requires forall v :: v in values ==> v == symbol
    ensures Count(values, symbol) == |values|
  {
    if values != [] {
      assert values[0] in values && forall v :: v in values[1..] ==> v in values;
      CountAll(values[1..], symbol);
    }
  }

  lemma OneSymbol(values: seq<nat>)
    requires |Unique(values)| == 1
    ensures LengthTable(values) == map[Unique(values)[0] := 1]
  {
    var symbol := Unique(values)[0];
    forall v | v in values ensures v == symbol {
      assert v in Unique(values);
    }
    CountAll(values, symbol);
    assert symbol in values;
    assert SymbolLength(values, symbol) == 1;
  }

  // ---------------------------------------------------------------- the code behind the lengths

  /** A binary prefix code with the given length for every symbol. */
  ghost predicate IsPrefixCode(code: map<nat, Word>, lengths: map<nat, nat>) {
    && code.Keys == lengths.Keys
    && (forall s :: s in code ==> |code[s]| == lengths[s])
    && (forall s, t :: s in code && t in code && s != t ==> !(code[s] <= code[t]))
  }

  function CountsOf(symbols: seq<nat>, values: seq<nat>): (counts: seq<nat>)
    ensures |counts| == |symbols|
    ensures forall i :: 0 <= i < |counts| ==> counts[i] == Count(values, symbols[i])
  {
    seq(|symbols|, i requires 0 <= i < |symbols| => Count(values, symbols[i]))
  }

  lemma {:induction false} CountsSum(symbols: seq<nat>, values: seq<nat>)
    ensures Sum(CountsOf(symbols, values)) == SumBySymbol(symbols, values, s => 1)
  {
    hide Count;
    if symbols != [] {
      CountsSum(symbols[1..], values);
      assert CountsOf(symbols, values)[1..] == CountsOf(symbols[1..], values);
    }
  }

  lemma {:induction false} SumOfOnes(values: seq<nat>)
    ensures SumOver(values, s => 1) == |values|
  {
    if values != [] {
      SumOfOnes(values[1..]);
    }
  }

  /** The accounted lengths are those of a binary prefix code, whatever the values. */
  lemma LengthsFormPrefixCode(values: seq<nat>)
    ensures exists code :: IsPrefixCode(code, LengthTable(values))
  {
    hide Count, CodeLength, Sum, SumOver, SumBySymbol, KraftSum;
    if values == [] {
      var none: map<nat, Word> := map[];
      assert IsPrefixCode(none, LengthTable(values));
    } else {
      var symbols := Unique(values);
      var counts := CountsOf(symbols, values);
      CountsSum(symbols, values);
      SumRegroups(values, s => 1);
      SumOfOnes(values);
      forall i | 0 <= i < |counts| ensures counts[i] > 0 {
        CountPositive(values, symbols[i]);
      }
      Kraft(counts, |values|);
      var codes := PrefixCodeExists(Lengths(counts, |values|));
      CodeOfSymbols(values, symbols, codes);
    }
  }

  lemma CodeOfSymbols(values: seq<nat>, symbols: seq<nat>, codes: seq<Word>)
    requires symbols == Unique(values) && |codes| == |symbols| && PrefixFree(codes)
    requires forall i :: 0 <= i < |codes| ==> |codes[i]| == SymbolLength(values, symbols[i])
    ensures exists code :: IsPrefixCode(code, LengthTable(values))
  {
    hide SymbolLength, Unique;
    var code := map s | s in values :: codes[IndexOf(symbols, s)];
    assert IsPrefixCode(code, LengthTable(values));
  }

  function Encode(values: seq<nat>, code: map<nat, Word>): Word
    requires forall v :: v in values ==> v in code
  {
    if values == [] then [] else code[values[0]] + Encode(values[1..], code)
  }

  lemma {:induction false} EncodedLength(values: seq<nat>, code: map<nat, Word>, f: nat -> nat)
    requires forall v :: v in values ==> v in code && |code[v]| == f(v)
    ensures |Encode(values, code)| == SumOver(values, f)
  {
    if values != [] {
      assert values[0] in values;
      EncodedLength(values[1..], code, f);
    }
  }

  /** The accounted payload bits are the length of the encoded values. */
  lemma PayloadBitsAreStreamLength(values: seq<nat>, code: map<nat, Word>)
    requires IsPrefixCode(code, LengthTable(values))
    ensures forall v :: v in values ==> v in code
    ensures |Encode(values, code)| == PayloadBits(values)
  {
    hide SumOver, SumBySymbol, Encode, SymbolLength, Unique;
    assert forall v :: v in values ==> v in LengthTable(values);
    EncodedLength(values, code, LengthOf(values));
    SumRegroups(values, LengthOf(values));
  }

  lemma CommonPrefix(a: Word, x: Word, b: Word, y: Word)
    requires a + x == b + y
    ensures a <= b || b <= a
  {
    if |a| <= |b| {
      assert a == (a + x)[..|a|] == (b + y)[..|a|] == b[..|a|];
    } else {
      assert b == (b + y)[..|b|] == (a + x)[..|b|] == a[..|b|];
    }
  }

  lemma SomethingEncoded(xs: seq<nat>, code: map<nat, Word>, lengths: map<nat, nat>)
    requires IsPrefixCode(code, lengths) && forall s :: s in lengths ==> lengths[s] >= 1
    requires forall v :: v in xs ==> v in code
    ensures xs != [] ==> Encode(xs, code) != []
  {
    if xs != [] {
      assert xs[0] in xs && |code[xs[0]]| >= 1;
    }
  }

  /** The stream determines the values. */
  lemma {:induction false} UniquelyDecodable(xs: seq<nat>, ys: seq<nat>, code: map<nat, Word>,
                                             lengths: map<nat, nat>)
    requires IsPrefixCode(code, lengths) && forall s :: s in lengths ==> lengths[s] >= 1
    requires (forall v :: v in xs ==> v in code) && (forall v :: v in ys ==> v in code)
    requires Encode(xs, code) == Encode(ys, code)
    ensures xs == ys
  {
    if xs == [] || ys == [] {
      SomethingEncoded(xs, code, lengths);
      SomethingEncoded(ys, code, lengths);
    } else {
      assert xs[0] in xs && ys[0] in ys;
      var a, b := code[xs[0]], code[ys[0]];
      CommonPrefix(a, Encode(xs[1..], code), b, Encode(ys[1..], code));
      assert xs[0] == ys[0];
      assert Encode(xs, code)[|a|..] == Encode(xs[1..], code);
      assert Encode(ys, code)[|a|..] == Encode(ys[1..], code);
      UniquelyDecodable(xs[1..], ys[1..], code, lengths);
      assert xs == [xs[0]] + xs[1..] && ys == [ys[0]] + ys[1..];
    }
  }
}
