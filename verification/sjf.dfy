/**
 Shortest-Job-First (sjf.c). `main` reads the bursts, labels process i
 with id i, reorders the burst and id arrays together by an exchange sort,
 and runs the two timing recurrences over the sorted order. The sort and
 the timing loop are modelled here as separate operations, with the
 reading and printing left to the caller.
 */
module Sjf {
  import opened Sums
  import opened Timing
  import opened Float32

  /** The fixed capacity of the process arrays in `main`. */
  const MaxProcesses := 10

  /** A process as the two parallel arrays pair it: its original input
      index and its burst time. */
  datatype Process = Process(id: int, burst: int)

  /** Pairs the id array with the burst array position by position. */
  function Pair(p: seq<int>, bt: seq<int>): seq<Process>
    requires |p| == |bt|
  {
    seq(|bt|, j requires 0 <= j < |bt| => Process(p[j], bt[j]))
  }

  /** The ids 0, 1, ..., n-1 that `main` assigns in input order. */
  function Range(n: nat): seq<int>
  {
    seq(n, j => j)
  }

  predicate Sorted(s: seq<int>)
  {
    forall i, j :: 0 <= i < j < |s| ==> s[i] <= s[j]
  }

  /** Exchanges positions i and k. */
  function Swap<T>(s: seq<T>, i: int, k: int): seq<T>
    requires 0 <= i < |s| && 0 <= k < |s|
  {
    s[i := s[k]][k := s[i]]
  }

  /** Exchanging the same two positions of both parallel arrays moves the
      two (id, burst) pairs and nothing else. */
  lemma SwapBoth(b: seq<int>, q: seq<int>, i: int, k: int)
    requires |q| == |b|
    requires 0 <= i < |b| && 0 <= k < |b|
    ensures |Swap(b, i, k)| == |b| && |Swap(q, i, k)| == |b|
    ensures Pair(Swap(q, i, k), Swap(b, i, k)) == Swap(Pair(q, b), i, k)
    ensures multiset(Pair(Swap(q, i, k), Swap(b, i, k))) == multiset(Pair(q, b))
    ensures multiset(Swap(b, i, k)) == multiset(b) && multiset(Swap(q, i, k)) == multiset(q)
  {
  }

  /** One inner pass of the exchange sort, as a function: for k from the
      given position to the end, position i is exchanged with position k
      whenever its burst is strictly larger. Returns (bursts, ids). */
  function InnerPass(bt: seq<int>, p: seq<int>, i: int, k: int): (r: (seq<int>, seq<int>))
    requires |p| == |bt|
    requires 0 <= i < k <= |bt|
    ensures |r.0| == |bt| && |r.1| == |bt|
    decreases |bt| - k
  {
    if k == |bt| then (bt, p)
    else if bt[i] > bt[k] then InnerPass(Swap(bt, i, k), Swap(p, i, k), i, k + 1)
    else InnerPass(bt, p, i, k + 1)
  }

  /** The outer passes from position i on. */
  function OuterPasses(bt: seq<int>, p: seq<int>, i: int): (r: (seq<int>, seq<int>))
    requires |p| == |bt|
    requires 0 <= i <= |bt|
    ensures |r.0| == |bt| && |r.1| == |bt|
    decreases |bt| - i
  {
    if i == |bt| then (bt, p)
    else
      var next := InnerPass(bt, p, i, i + 1);
      OuterPasses(next.0, next.1, i + 1)
  }

  /** The whole exchange sort: the state the two nested loops leave behind. */
  function ExchangeSort(bt: seq<int>, p: seq<int>): (r: (seq<int>, seq<int>))
    requires |p| == |bt|
    ensures |r.0| == |bt| && |r.1| == |p|
  {
    OuterPasses(bt, p, 0)
  }

  /** What holds of the arrays part-way through the inner loop at position
      i, with positions i+1..k-1 already compared. */
  ghost predicate PassInvariant(bt: seq<int>, p: seq<int>, b: seq<int>, q: seq<int>, i: int, k: int)
  {
    && |p| == |bt| && |b| == |bt| && |q| == |bt|
    && 0 <= i < k <= |bt|
    && (forall a :: 0 <= a < i ==> b[a] == bt[a] && q[a] == p[a])
    && (forall j :: i < j < k ==> b[i] <= b[j])
    && multiset(Pair(q, b)) == multiset(Pair(p, bt))
    && multiset(b) == multiset(bt) && multiset(q) == multiset(p)
    && ((forall a, c :: 0 <= a < i <= c < |bt| ==> bt[a] <= bt[c]) ==>
          forall a, c :: 0 <= a < i <= c < |b| ==> b[a] <= b[c])
  }

  /** One comparison of the inner loop keeps the pass invariant, whether
      or not it exchanges. */
  lemma ExchangeStep(bt: seq<int>, p: seq<int>, b: seq<int>, q: seq<int>, i: int, k: int)
    requires PassInvariant(bt, p, b, q, i, k)
    requires k < |bt|
    ensures b[i] > b[k] ==> PassInvariant(bt, p, Swap(b, i, k), Swap(q, i, k), i, k + 1)
    ensures b[i] <= b[k] ==> PassInvariant(bt, p, b, q, i, k + 1)
  {
    if b[i] > b[k] {
      SwapBoth(b, q, i, k);
      var b', q' := Swap(b, i, k), Swap(q, i, k);
      assert forall a :: 0 <= a < i ==> b'[a] == bt[a] && q'[a] == p[a];
      assert forall j :: i < j < k + 1 ==> b'[i] <= b'[j];
      if forall a, c :: 0 <= a < i <= c < |bt| ==> bt[a] <= bt[c] {
        assert forall a, c :: 0 <= a < i <= c < |b'| ==> b'[a] <= b'[c];
      }
    }
  }

  /** The inner pass, as a function, keeps the pass invariant through to
      the end of the array. */
  lemma {:induction false} InnerPassKeeps(bt: seq<int>, p: seq<int>, b: seq<int>, q: seq<int>, i: int, k: int)
    requires PassInvariant(bt, p, b, q, i, k)
    ensures PassInvariant(bt, p, InnerPass(b, q, i, k).0, InnerPass(b, q, i, k).1, i, |bt|)
    decreases |bt| - k
  {
    if k < |bt| {
      ExchangeStep(bt, p, b, q, i, k);
      if b[i] > b[k] {
        InnerPassKeeps(bt, p, Swap(b, i, k), Swap(q, i, k), i, k + 1);
      } else {
        InnerPassKeeps(bt, p, b, q, i, k + 1);
      }
    }
  }

  /** The first i positions are in order and none exceeds a later one. */
  ghost predicate SortedBelow(b: seq<int>, i: int)
  {
    && 0 <= i <= |b|
    && (forall a, c :: 0 <= a < c < i ==> b[a] <= b[c])
    && (forall a, c :: 0 <= a < i <= c < |b| ==> b[a] <= b[c])
  }

  /** A completed pass at i over arrays sorted below i leaves them sorted
      below i + 1. */
  lemma PassExtendsSorted(b: seq<int>, q: seq<int>, nb: seq<int>, nq: seq<int>, i: int)
    requires SortedBelow(b, i)
    requires PassInvariant(b, q, nb, nq, i, |b|)
    ensures SortedBelow(nb, i + 1)
  {
  }

  /** One outer pass, as a function, extends the sorted prefix by one
      position and only permutes the pairs. */
  lemma OuterStep(b: seq<int>, q: seq<int>, i: int)
    requires |q| == |b| && 0 <= i < |b|
    requires SortedBelow(b, i)
    ensures SortedBelow(InnerPass(b, q, i, i + 1).0, i + 1)
    ensures multiset(Pair(InnerPass(b, q, i, i + 1).1, InnerPass(b, q, i, i + 1).0)) == multiset(Pair(q, b))
  {
    var next := InnerPass(b, q, i, i + 1);
    assert PassInvariant(b, q, b, q, i, i + 1);
    InnerPassKeeps(b, q, b, q, i, i + 1);
    PassExtendsSorted(b, q, next.0, next.1, i);
  }

  /** The outer passes from i on, as a function, complete a sort whose
      first i positions are already final, and only permute the pairs. */
  lemma {:induction false} OuterPassesSorts(bt: seq<int>, p: seq<int>, b: seq<int>, q: seq<int>, i: int)
    requires |p| == |bt| && |b| == |bt| && |q| == |bt|
    requires 0 <= i <= |bt|
    requires SortedBelow(b, i)
    requires multiset(Pair(q, b)) == multiset(Pair(p, bt))
    ensures Sorted(OuterPasses(b, q, i).0)
    ensures multiset(Pair(OuterPasses(b, q, i).1, OuterPasses(b, q, i).0)) == multiset(Pair(p, bt))
    decreases |bt| - i
  {
    if i == |bt| {
      assert OuterPasses(b, q, i) == (b, q);
    } else {
      var next := InnerPass(b, q, i, i + 1);
      assert OuterPasses(b, q, i) == OuterPasses(next.0, next.1, i + 1);
      OuterStep(b, q, i);
      OuterPassesSorts(bt, p, next.0, next.1, i + 1);
    }
  }

  /** The functional exchange sort orders the bursts and only permutes the
      (id, burst) pairs. */
  lemma ExchangeSortSorts(bt: seq<int>, p: seq<int>)
    requires |p| == |bt|
    ensures Sorted(ExchangeSort(bt, p).0)
    ensures multiset(Pair(ExchangeSort(bt, p).1, ExchangeSort(bt, p).0)) == multiset(Pair(p, bt))
  {
    OuterPassesSorts(bt, p, bt, p, 0);
  }

  /** One pass of the inner loop: position i is exchanged with every later
      position holding a strictly smaller burst. Positions before i are
      not touched, position i ends up holding a minimum of the suffix, the
      (id, burst) pairs are only permuted, and a prefix whose bursts were
      all at most those of the suffix stays so. */
  method ExchangePass(bt: seq<int>, p: seq<int>, i: int) returns (b: seq<int>, q: seq<int>)
    requires |p| == |bt|
    requires 0 <= i < |bt|
    ensures (b, q) == InnerPass(bt, p, i, i + 1)
    ensures |b| == |bt| && |q| == |bt|
    ensures forall a :: 0 <= a < i ==> b[a] == bt[a] && q[a] == p[a]
    ensures forall c :: i < c < |b| ==> b[i] <= b[c]
    ensures multiset(Pair(q, b)) == multiset(Pair(p, bt))
    ensures multiset(b) == multiset(bt) && multiset(q) == multiset(p)
    ensures (forall a, c :: 0 <= a < i <= c < |bt| ==> bt[a] <= bt[c]) ==>
              forall a, c :: 0 <= a < i <= c < |b| ==> b[a] <= b[c]
  {
    b, q := bt, p;
    var k := i + 1;
    while k < |b|
      invariant PassInvariant(bt, p, b, q, i, k)
      invariant InnerPass(b, q, i, k) == InnerPass(bt, p, i, i + 1)
    {
      ExchangeStep(bt, p, b, q, i, k);
      if b[i] > b[k] {
        b, q := Swap(b, i, k), Swap(q, i, k);
      }
      k := k + 1;
    }
  }

  /** The nested exchange-sort loops over the parallel burst and id arrays.
      The result is in non-decreasing burst order and every (id, burst)
      pair of the input survives: the sort only ever exchanges whole
      pairs. */
  method SortByBurst(bt: seq<int>, p: seq<int>) returns (sbt: seq<int>, sp: seq<int>)
    requires |p| == |bt|
    ensures (sbt, sp) == ExchangeSort(bt, p)
    ensures Sorted(sbt)
    ensures |sp| == |sbt| && multiset(Pair(sp, sbt)) == multiset(Pair(p, bt))
    ensures multiset(sbt) == multiset(bt) && multiset(sp) == multiset(p)
  {
    sbt, sp := bt, p;
    var i := 0;
    while i < |bt|
      invariant 0 <= i <= |bt|
      invariant |sbt| == |bt| && |sp| == |bt|
      invariant OuterPasses(sbt, sp, i) == ExchangeSort(bt, p)
      invariant multiset(Pair(sp, sbt)) == multiset(Pair(p, bt))
      invariant multiset(sbt) == multiset(bt) && multiset(sp) == multiset(p)
      invariant forall a, c :: 0 <= a < c < i ==> sbt[a] <= sbt[c]
      invariant forall a, c :: 0 <= a < i <= c < |bt| ==> sbt[a] <= sbt[c]
    {
      sbt, sp := ExchangePass(sbt, sp, i);
      i := i + 1;
    }
  }

  /** The timing loop of `main` over the sorted bursts: waiting time by the
      prefix-sum recurrence and turnaround by its own cumulative recurrence.
      `main` writes position 0 before the loop, so at least one process is
      required. The first turnaround is stored through the `float`
      accumulator in the same chained assignment, so it is the first burst
      after a round trip through `float`. Every turnaround is then off
      waiting + burst by that rounding error, and the last one off the
      total of the bursts; `ExactWhenSmall` gives when there is none. */
  method ComputeTimes(bt: seq<int>) returns (wt: seq<int>, tat: seq<int>)
    requires |bt| >= 1
    ensures WaitingRecurrence(bt, wt)
    ensures CumulativeTurnaroundFrom(bt, tat, FloatRoundTrip(bt[0]))
    ensures forall i {:trigger tat[i]} :: 0 <= i < |bt| ==> tat[i] == bt[i] + wt[i] + (tat[0] - bt[0])
  {
    wt, tat := [0], [FloatRoundTrip(bt[0])];
    var i := 1;
    while i < |bt|
      invariant 1 <= i <= |bt|
      invariant WaitingRecurrence(bt[..i], wt)
      invariant CumulativeTurnaroundFrom(bt[..i], tat, FloatRoundTrip(bt[0]))
    {
      wt := wt + [wt[i - 1] + bt[i - 1]];
      tat := tat + [tat[i - 1] + bt[i]];
      i := i + 1;
    }
    assert bt[..i] == bt;
    CumulativeFromIsOffset(bt, wt, tat, FloatRoundTrip(bt[0]));
  }

  /** `main` without its input and output: label the processes 0..n-1,
      sort, then time the sorted order. The ids end up a permutation of
      0..n-1, each sorted burst is the original burst of the process now
      at that position, and the last turnaround is the total of the
      original bursts, up to the rounding of the smallest burst through
      `float` (see `ExactWhenSmall` for when there is none). */
  method Run(bt: seq<int>) returns (sbt: seq<int>, p: seq<int>, wt: seq<int>, tat: seq<int>)
    requires 1 <= |bt| <= MaxProcesses
    ensures Sorted(sbt)
    ensures |p| == |bt| && multiset(p) == multiset(Range(|bt|))
    ensures |sbt| == |bt| && forall j :: 0 <= j < |p| ==> 0 <= p[j] < |bt| && sbt[j] == bt[p[j]]
    ensures WaitingRecurrence(sbt, wt) && CumulativeTurnaroundFrom(sbt, tat, FloatRoundTrip(sbt[0]))
    ensures tat[|bt| - 1] == Sum(bt) + (tat[0] - sbt[0])
  {
    sbt, p := SortByBurst(bt, Range(|bt|));
    wt, tat := ComputeTimes(sbt);
    CumulativeFromIsOffset(sbt, wt, tat, FloatRoundTrip(sbt[0]));
    SumPermutation(sbt, bt);
    forall j | 0 <= j < |p|
      ensures 0 <= p[j] < |bt| && sbt[j] == bt[p[j]]
    {
      assert Pair(p, sbt)[j] in multiset(Pair(Range(|bt|), bt));
      var m :| 0 <= m < |bt| && Pair(Range(|bt|), bt)[m] == Pair(p, sbt)[j];
    }
  }

  /** When the smallest burst is at most 2^24 in magnitude the `float`
      round trip of the first turnaround is exact: the turnaround
      recurrence is the proper one, every turnaround is waiting + burst,
      and the last one is the total of the original bursts. */
  lemma ExactWhenSmall(bt: seq<int>, sbt: seq<int>, wt: seq<int>, tat: seq<int>)
    requires |sbt| >= 1 && multiset(sbt) == multiset(bt)
    requires WaitingRecurrence(sbt, wt) && CumulativeTurnaroundFrom(sbt, tat, FloatRoundTrip(sbt[0]))
    requires -ExactBound <= sbt[0] <= ExactBound
    ensures CumulativeTurnaround(sbt, tat) && TurnaroundIsWaitPlusBurst(sbt, wt, tat)
    ensures tat[|sbt| - 1] == Sum(bt)
  {
    RoundTripExact(sbt[0]);
    CumulativeIsWaitPlusBurst(sbt, wt, tat);
    TurnaroundIsCompletionTime(sbt, wt, tat);
    SumPermutation(sbt, bt);
  }

  /** The sort of the worked SJF example: bursts 10, 5, 8 are reordered
      to 5, 8, 10, carrying processes 1, 2, 0. */
  method SortExample() returns (sbt: seq<int>, p: seq<int>)
    ensures sbt == [5, 8, 10] && p == [1, 2, 0]
  {
    sbt, p := SortByBurst([10, 5, 8], Range(3));
    ExchangeSortExample();
  }

  /** The worked SJF example: bursts 10, 5, 8 run as processes 1, 2, 0,
      waiting 0, 5 and 13 and completing at 5, 13 and 23. */
  method Example() returns (sbt: seq<int>, p: seq<int>, wt: seq<int>, tat: seq<int>)
    ensures sbt == [5, 8, 10] && p == [1, 2, 0]
    ensures wt == [0, 5, 13] && tat == [5, 13, 23]
  {
    sbt, p := SortExample();
    RoundTripExact(5);
    wt, tat := ComputeTimes(sbt);
    assert WaitingRecurrence([5, 8, 10], wt);
    assert CumulativeTurnaroundFrom([5, 8, 10], tat, 5);
    assert wt[0] == 0 && wt[1] == 5 && wt[2] == 13;
    assert tat[0] == 5 && tat[1] == 13 && tat[2] == 23;
  }



  /** Equal bursts are not kept in input order: with bursts 4, 4, 2 the
      first pass moves process 2 to the front and process 0 behind
      process 1. */
  lemma ExchangeSortIsNotStable()
    ensures ExchangeSort([4, 4, 2], Range(3)) == ([2, 4, 4], [2, 1, 0])
    ensures var r := ExchangeSort([4, 4, 2], Range(3)); r.0[1] == r.0[2] && r.1[1] > r.1[2]
  {
    assert Range(3) == [0, 1, 2];
    assert Swap([4, 4, 2], 0, 2) == [2, 4, 4] && Swap([0, 1, 2], 0, 2) == [2, 1, 0];
    assert InnerPass([4, 4, 2], [0, 1, 2], 0, 2) == InnerPass([2, 4, 4], [2, 1, 0], 0, 3);
    assert InnerPass([4, 4, 2], [0, 1, 2], 0, 1) == ([2, 4, 4], [2, 1, 0]);
    assert InnerPass([2, 4, 4], [2, 1, 0], 1, 2) == InnerPass([2, 4, 4], [2, 1, 0], 1, 3);
    assert OuterPasses([2, 4, 4], [2, 1, 0], 1) == OuterPasses([2, 4, 4], [2, 1, 0], 2);
  }

  /** Bursts 10, 5, 8 are dispatched as processes 1, 2, 0. */
  lemma ExchangeSortExample()
    ensures ExchangeSort([10, 5, 8], Range(3)) == ([5, 8, 10], [1, 2, 0])
  {
    assert Range(3) == [0, 1, 2];
    assert Swap([10, 5, 8], 0, 1) == [5, 10, 8] && Swap([0, 1, 2], 0, 1) == [1, 0, 2];
    assert InnerPass([10, 5, 8], [0, 1, 2], 0, 1) == InnerPass([5, 10, 8], [1, 0, 2], 0, 2);
    assert InnerPass([5, 10, 8], [1, 0, 2], 0, 2) == InnerPass([5, 10, 8], [1, 0, 2], 0, 3);
    assert Swap([5, 10, 8], 1, 2) == [5, 8, 10] && Swap([1, 0, 2], 1, 2) == [1, 2, 0];
    assert InnerPass([5, 10, 8], [1, 0, 2], 1, 2) == InnerPass([5, 8, 10], [1, 2, 0], 1, 3);
    assert OuterPasses([5, 10, 8], [1, 0, 2], 1) == OuterPasses([5, 8, 10], [1, 2, 0], 2);
  }
}
