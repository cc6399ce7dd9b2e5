/**
 The cumulative-time recurrences shared by both dispatch policies, and
 what they mean. Positions are dispatch positions: under FCFS that is the
 input order, under SJF the order after sorting by burst time.
 */
module Timing {
  import opened Sums

  /** The waiting-time recurrence: the first process waits 0, every later
      one waits as long as its predecessor plus the predecessor's burst. */
  predicate WaitingRecurrence(bt: seq<int>, wt: seq<int>)
  {
    && |wt| == |bt|
    && (|bt| > 0 ==> wt[0] == 0)
    && forall i :: 1 <= i < |bt| ==> wt[i] == wt[i - 1] + bt[i - 1]
  }

  /** The cumulative turnaround recurrence from a given first value: every
      process after the first completes its own burst after its
      predecessor. */
  predicate CumulativeTurnaroundFrom(bt: seq<int>, tat: seq<int>, first: int)
  {
    && |tat| == |bt|
    && (|bt| > 0 ==> tat[0] == first)
    && forall i :: 1 <= i < |bt| ==> tat[i] == tat[i - 1] + bt[i]
  }

  /** The cumulative turnaround recurrence proper: the first process
      completes after its own burst. */
  predicate CumulativeTurnaround(bt: seq<int>, tat: seq<int>)
  {
    CumulativeTurnaroundFrom(bt, tat, if |bt| > 0 then bt[0] else 0)
  }

  /** Turnaround defined element-wise as waiting time plus burst time. */
  predicate TurnaroundIsWaitPlusBurst(bt: seq<int>, wt: seq<int>, tat: seq<int>)
  {
    && |wt| == |bt|
    && |tat| == |bt|
    && forall i :: 0 <= i < |bt| ==> tat[i] == bt[i] + wt[i]
  }

  lemma {:induction false} WaitingIsPrefixSumAt(bt: seq<int>, wt: seq<int>, i: int)
    requires WaitingRecurrence(bt, wt)
    requires 0 <= i < |bt|
    ensures wt[i] == Sum(bt[..i])
    decreases i
  {
    if i == 0 {
      assert bt[..0] == [];
    } else {
      WaitingIsPrefixSumAt(bt, wt, i - 1);
      SumPrefix(bt, i - 1);
    }
  }

  /** Any waiting times satisfying the recurrence are the prefix sums of
      the bursts: process i waits for exactly the bursts dispatched before
      it. */
  lemma WaitingIsPrefixSum(bt: seq<int>, wt: seq<int>)
    requires WaitingRecurrence(bt, wt)
    ensures forall i {:trigger wt[i]} :: 0 <= i < |bt| ==> wt[i] == Sum(bt[..i])
  {
    forall i | 0 <= i < |bt|
      ensures wt[i] == Sum(bt[..i])
    {
      WaitingIsPrefixSumAt(bt, wt, i);
    }
  }

  lemma {:induction false} CumulativeIsWaitPlusBurstAt(bt: seq<int>, wt: seq<int>, tat: seq<int>, first: int, i: int)
    requires WaitingRecurrence(bt, wt)
    requires CumulativeTurnaroundFrom(bt, tat, first)
    requires 0 <= i < |bt|
    ensures tat[i] == bt[i] + wt[i] + (first - bt[0])
    decreases i
  {
    if i > 0 {
      CumulativeIsWaitPlusBurstAt(bt, wt, tat, first, i - 1);
    }
  }

  /** The cumulative turnaround recurrence agrees with waiting time plus
      burst time, in both directions: given the waiting-time recurrence,
      a turnaround sequence satisfies one exactly when it satisfies the
      other. */
  lemma CumulativeIsWaitPlusBurst(bt: seq<int>, wt: seq<int>, tat: seq<int>)
    requires WaitingRecurrence(bt, wt)
    ensures CumulativeTurnaround(bt, tat) <==> TurnaroundIsWaitPlusBurst(bt, wt, tat)
  {
    if CumulativeTurnaround(bt, tat) {
      forall i | 0 <= i < |bt|
        ensures tat[i] == bt[i] + wt[i]
      {
        CumulativeIsWaitPlusBurstAt(bt, wt, tat, bt[0], i);
      }
    }
  }

  /** Started from any first value, the cumulative recurrence stays off
      waiting time plus burst time by the constant amount the first value
      is off the first burst, and so is the last completion time off the
      total of the bursts. */
  lemma CumulativeFromIsOffset(bt: seq<int>, wt: seq<int>, tat: seq<int>, first: int)
    requires |bt| > 0
    requires WaitingRecurrence(bt, wt)
    requires CumulativeTurnaroundFrom(bt, tat, first)
    ensures forall i {:trigger tat[i]} :: 0 <= i < |bt| ==> tat[i] == bt[i] + wt[i] + (first - bt[0])
    ensures tat[|bt| - 1] == Sum(bt) + (first - bt[0])
  {
    forall i | 0 <= i < |bt|
      ensures tat[i] == bt[i] + wt[i] + (first - bt[0])
    {
      CumulativeIsWaitPlusBurstAt(bt, wt, tat, first, i);
    }
    WaitingIsPrefixSumAt(bt, wt, |bt| - 1);
    SumPrefix(bt, |bt| - 1);
    assert bt[..|bt|] == bt;
  }

  /** Waiting plus burst is the prefix sum up to and including the
      process, so the last process completes when all bursts are done. */
  lemma TurnaroundIsCompletionTime(bt: seq<int>, wt: seq<int>, tat: seq<int>)
    requires WaitingRecurrence(bt, wt)
    requires TurnaroundIsWaitPlusBurst(bt, wt, tat)
    ensures forall i {:trigger tat[i]} :: 0 <= i < |bt| ==> tat[i] == Sum(bt[..i + 1])
    ensures |bt| > 0 ==> tat[|bt| - 1] == Sum(bt)
  {
    WaitingIsPrefixSum(bt, wt);
    forall i | 0 <= i < |bt|
      ensures tat[i] == Sum(bt[..i + 1])
    {
      SumPrefix(bt, i);
    }
    if |bt| > 0 {
      assert bt[..|bt|] == bt;
    }
  }

  /** With non-negative bursts nobody waits a negative time, waiting times
      never decrease along the dispatch order, and no turnaround is shorter
      than its burst. */
  lemma WaitingMonotone(bt: seq<int>, wt: seq<int>, tat: seq<int>)
    requires forall i :: 0 <= i < |bt| ==> bt[i] >= 0
    requires WaitingRecurrence(bt, wt)
    requires TurnaroundIsWaitPlusBurst(bt, wt, tat)
    ensures forall i :: 0 <= i < |bt| ==> 0 <= wt[i] && bt[i] <= tat[i]
    ensures forall i, j :: 0 <= i <= j < |bt| ==> wt[i] <= wt[j]
  {
    WaitingIsPrefixSum(bt, wt);
    forall i, j | 0 <= i <= j < |bt|
      ensures 0 <= wt[i] <= wt[j]
    {
      PrefixSumsNonDecreasing(bt, i, j);
    }
  }
}
