/** Datatypes and sequence facts shared by the models. */
module Prelude {

  datatype Option<+T> = None | Some(value: T)

  datatype Result<+T, +E> = Ok(value: T) | Err(error: E)

  const UINT64_LIMIT: nat := 0x1_0000_0000_0000_0000
  const INT64_LIMIT: nat := 0x8000_0000_0000_0000

  /** The wrap-around of a uint64. */
  function Wrap64(x: nat): nat {
    x % UINT64_LIMIT
  }

  lemma Wrap64Once(x: nat)
    requires x < 2 * UINT64_LIMIT
    ensures Wrap64(x) == if x < UINT64_LIMIT then x else x - UINT64_LIMIT
  {
  }

  /** A truncated quotient is the largest that fits. */
  lemma QuotientReaches(x: nat, y: nat, c: nat)
    requires y > 0
    ensures c <= x / y <==> c * y <= x
  {
    var q := x / y;
    assert x == q * y + x % y;
    if c <= q { assert c * y + (q - c) * y == q * y; } else { assert c * y == (q + 1) * y + (c - q - 1) * y; }
  }

  /** A list without repetition holds each of its elements once. */
  lemma {:induction false} DistinctElements<T>(s: seq<T>)
    requires forall i, j | 0 <= i < j < |s| :: s[i] != s[j]
    ensures multiset(s) == multiset(set k | k in s)
  {
    if s != [] {
      var front, last := s[..|s| - 1], s[|s| - 1];
      DistinctElements(front);
      var elems := set k | k in front;
      assert s == front + [last] && last !in elems;
      assert (set k | k in s) == elems + {last};
    }
  }

  lemma ConcatAssociates<T>(a: seq<T>, b: seq<T>, c: seq<T>)
    ensures a + (b + c) == a + b + c
  {
  }
}
