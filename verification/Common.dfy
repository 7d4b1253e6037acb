/** Small shared definitions: optional values, results that carry the reason of a failure, shifts,
    powers of two, products and results built up from the front. */
module Common {

  datatype Option<+T> = None | Some(value: T)

  datatype Result<+T, +E> = Ok(value: T) | Err(error: E)

  function Power2(k: nat): (p: nat)
    ensures p >= 1
  {
    if k == 0 then 1 else 2 * Power2(k - 1)
  }

  /** v << k */
  function Shl(v: nat, k: nat): nat {
    if k == 0 then v else 2 * Shl(v, k - 1)
  }

  /** v >> k */
  function Shr(v: nat, k: nat): nat {
    if k == 0 then v else Shr(v / 2, k - 1)
  }

  /** The product of two reals, named so that proofs can keep it closed. */
  function Mul(a: real, b: real): real {
    a * b
  }

  /** The first position of `x`. */
  function IndexOf(s: seq<nat>, x: nat): (i: nat)
    requires x in s
    ensures i < |s| && s[i] == x
  {
    if s[0] == x then 0 else 1 + IndexOf(s[1..], x)
  }

  lemma SubsetSize<T>(part: set<T>, whole: set<T>)
    requires part <= whole
    ensures |part| <= |whole|
  {
    assert whole == part + (whole - part);
  }

  /** A result with more values in front; an error stays as it is. */
  function Prefixed<T, E>(done: seq<T>, rest: Result<seq<T>, E>): Result<seq<T>, E> {
    if rest.Err? then rest else Ok(done + rest.value)
  }

  lemma PrefixedNothing<T, E>(none: seq<T>, all: Result<seq<T>, E>)
    requires none == []
    ensures Prefixed(none, all) == all
  {
    if all.Ok? {
      assert none + all.value == all.value;
    }
  }

  lemma PrefixedError<T, E>(done: seq<T>, e: E)
    ensures Prefixed<T, E>(done, Err(e)) == Err(e)
  {
  }

  lemma PrefixedOk<T, E>(done: seq<T>, rest: seq<T>)
    ensures Prefixed<T, E>(done, Ok(rest)) == Ok(done + rest)
  {
  }

  lemma PrefixedTwice<T, E>(done: seq<T>, more: seq<T>, rest: Result<seq<T>, E>)
    ensures Prefixed(done, Prefixed(more, rest)) == Prefixed(done + more, rest)
  {
    if rest.Ok? {
      assert done + (more + rest.value) == done + more + rest.value;
    }
  }
}
