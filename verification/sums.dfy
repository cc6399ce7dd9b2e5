/**
 Integer sums over sequences of burst times. `Sum` is the reference
 definition that the scheduling recurrences are proved against: the
 waiting time of the process at position i is the sum of the bursts
 before it.
 */
module Sums {

  /** Sum of a sequence, peeling off the last element. */
  function Sum(s: seq<int>): int
    decreases |s|
  {
    if |s| == 0 then 0 else Sum(s[..|s| - 1]) + s[|s| - 1]
  }

  /** Extending a prefix by one element adds that element to its sum. */
  lemma SumPrefix(s: seq<int>, i: int)
    requires 0 <= i < |s|
    ensures Sum(s[..i + 1]) == Sum(s[..i]) + s[i]
  {
    assert s[..i + 1][..i] == s[..i];
  }

  /** Sum distributes over concatenation. */
  lemma {:induction false} SumConcat(a: seq<int>, b: seq<int>)
    ensures Sum(a + b) == Sum(a) + Sum(b)
    decreases |b|
  {
    if |b| == 0 {
      assert a + b == a;
    } else {
      var b' := b[..|b| - 1];
      assert (a + b)[..|a + b| - 1] == a + b';
      SumConcat(a, b');
    }
  }

  /** Reordering a sequence does not change its sum. */
  lemma {:induction false} SumPermutation(a: seq<int>, b: seq<int>)
    requires multiset(a) == multiset(b)
    ensures Sum(a) == Sum(b)
    decreases |a|
  {
    if |a| == 0 {
      assert |multiset(b)| == 0;
    } else {
      var x := a[|a| - 1];
      var a' := a[..|a| - 1];
      assert a == a' + [x];
      assert x in multiset(b);
      var j :| 0 <= j < |b| && b[j] == x;
      var b' := b[..j] + b[j + 1..];
      assert b == b[..j] + [x] + b[j + 1..];
      assert multiset(a') + multiset{x} == multiset(b') + multiset{x};
      assert multiset(a') == multiset(b') by {
        assert multiset(a') == multiset(a') + multiset{x} - multiset{x};
      }
      SumPermutation(a', b');
      SumConcat(b[..j], b[j + 1..]);
      SumConcat(b[..j] + [x], b[j + 1..]);
      SumConcat(b[..j], [x]);
      assert Sum([x]) == x by {
        assert [x][..0] == [];
      }
    }
  }

  /** With non-negative elements the prefix sums are non-negative and
      non-decreasing in the prefix length. */
  lemma {:induction false} PrefixSumsNonDecreasing(s: seq<int>, i: int, j: int)
    requires forall k :: 0 <= k < |s| ==> s[k] >= 0
    requires 0 <= i <= j <= |s|
    ensures 0 <= Sum(s[..i]) <= Sum(s[..j])
    decreases j
  {
    if i == j {
      if i == 0 {
        assert s[..0] == [];
      } else {
        PrefixSumsNonDecreasing(s, i - 1, i - 1);
        SumPrefix(s, i - 1);
      }
    } else {
      PrefixSumsNonDecreasing(s, i, j - 1);
      SumPrefix(s, j - 1);
    }
  }
}
