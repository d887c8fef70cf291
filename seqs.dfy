/** Small sequence facts shared by the block generator and the game state. */
module Seqs {

  /** A value that may be missing (`null` or `undefined` in the game script). */
  datatype Option<T> = None | Some(value: T)

  function Min(a: int, b: int): int { if a <= b then a else b }

  function Max(a: int, b: int): int { if a >= b then a else b }

  /** No element occurs twice. */
  predicate Distinct<T(==)>(s: seq<T>) {
    forall i, j | 0 <= i < j < |s| :: s[i] != s[j]
  }

  /** Strictly ascending indices, as the line scans report them. */
  predicate Increasing(s: seq<int>) {
    forall i, j | 0 <= i < j < |s| :: s[i] < s[j]
  }

  lemma {:induction false} DistinctHasSingleCounts<T>(s: seq<T>)
    requires Distinct(s)
    ensures forall x :: multiset(s)[x] <= 1
  {
    if |s| > 0 {
      var rest := s[1..];
      assert Distinct(rest) by {
        forall i, j | 0 <= i < j < |rest| ensures rest[i] != rest[j] {
          assert rest[i] == s[i + 1] && rest[j] == s[j + 1];
        }
      }
      DistinctHasSingleCounts(rest);
      assert s == [s[0]] + rest;
      assert s[0] !in rest by {
        forall k | 0 <= k < |rest| ensures rest[k] != s[0] {
          assert rest[k] == s[k + 1];
        }
      }
      assert multiset(s) == multiset{s[0]} + multiset(rest);
    }
  }

  lemma TwoCopies<T>(s: seq<T>, i: int, j: int)
    requires 0 <= i < j < |s| && s[i] == s[j]
    ensures multiset(s)[s[i]] >= 2
  {
    assert s == s[..i] + [s[i]] + s[i + 1..j] + [s[j]] + s[j + 1..];
    assert multiset(s) == multiset(s[..i]) + multiset{s[i]} + multiset(s[i + 1..j]) + multiset{s[j]} + multiset(s[j + 1..]);
  }

  lemma SingleCountsAreDistinct<T>(s: seq<T>)
    requires forall x :: multiset(s)[x] <= 1
    ensures Distinct(s)
  {
    forall i, j | 0 <= i < j < |s| ensures s[i] != s[j] {
      if s[i] == s[j] {
        TwoCopies(s, i, j);
        assert false;
      }
    }
  }

  /** Reordering a sequence without repeats yields a sequence without repeats. */
  lemma PermutationKeepsDistinct<T>(a: seq<T>, b: seq<T>)
    requires multiset(a) == multiset(b) && Distinct(a)
    ensures Distinct(b)
  {
    DistinctHasSingleCounts(a);
    SingleCountsAreDistinct(b);
  }

  /** A prefix of a reordering of a sequence without repeats has no repeats and draws only from that sequence. */
  lemma PrefixOfPermutation<T>(a: seq<T>, b: seq<T>, n: int)
    requires multiset(a) == multiset(b) && Distinct(a) && 0 <= n <= |b|
    ensures Distinct(b[..n])
    ensures forall x | x in b[..n] :: x in a
  {
    PermutationKeepsDistinct(a, b);
    forall x | x in b[..n] ensures x in a {
      assert x in multiset(b);
    }
  }
}
