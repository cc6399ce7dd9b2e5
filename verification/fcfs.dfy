/**
 First-Come-First-Served timing (fcfss.c): processes are dispatched in
 input order, so waiting and turnaround times are computed directly over
 the burst times as given. The C functions fill caller-supplied arrays of
 `numProcesses` entries; here each returns a fresh sequence of that length.
 */
module Fcfs {
  import opened Sums
  import opened Timing

  /** Waiting times by the prefix-sum recurrence, in input order. The C
      code writes `wt[0]` unconditionally, so at least one process is
      required. */
  method FindWaitingTime(bt: seq<int>) returns (wt: seq<int>)
    requires |bt| >= 1
    ensures WaitingRecurrence(bt, wt)
    ensures forall i {:trigger wt[i]} :: 0 <= i < |bt| ==> wt[i] == Sum(bt[..i])
  {
    wt := [0];
    var i := 1;
    while i < |bt|
      invariant 1 <= i <= |bt|
      invariant WaitingRecurrence(bt[..i], wt)
    {
      wt := wt + [bt[i - 1] + wt[i - 1]];
      i := i + 1;
    }
    assert bt[..i] == bt;
    WaitingIsPrefixSum(bt, wt);
  }

  /** Turnaround time of each process as its burst plus its waiting time.
      When the waiting times are those of the FCFS recurrence, each
      turnaround is the time at which that process completes and the last
      one is the total of all bursts. */
  method FindTurnAroundTime(bt: seq<int>, wt: seq<int>) returns (tat: seq<int>)
    requires |wt| == |bt|
    ensures TurnaroundIsWaitPlusBurst(bt, wt, tat)
    ensures WaitingRecurrence(bt, wt) ==> forall i {:trigger tat[i]} :: 0 <= i < |bt| ==> tat[i] == Sum(bt[..i + 1])
    ensures WaitingRecurrence(bt, wt) && |bt| > 0 ==> tat[|bt| - 1] == Sum(bt)
  {
    tat := [];
    var i := 0;
    while i < |bt|
      invariant 0 <= i <= |bt|
      invariant |tat| == i
      invariant forall j :: 0 <= j < i ==> tat[j] == bt[j] + wt[j]
    {
      tat := tat + [bt[i] + wt[i]];
      i := i + 1;
    }
    if WaitingRecurrence(bt, wt) {
      TurnaroundIsCompletionTime(bt, wt, tat);
    }
  }

  /** The integer part of `findAvgTime`: both timing passes, then the
      running totals of waiting and turnaround time that the averages are
      divided from. */
  method FindAvgTime(bt: seq<int>) returns (wt: seq<int>, tat: seq<int>, totalWt: int, totalTat: int)
    requires |bt| >= 1
    ensures WaitingRecurrence(bt, wt)
    ensures TurnaroundIsWaitPlusBurst(bt, wt, tat)
    ensures forall i {:trigger wt[i]} {:trigger tat[i]} :: 0 <= i < |bt| ==> wt[i] == Sum(bt[..i]) && tat[i] == Sum(bt[..i + 1])
    ensures tat[|bt| - 1] == Sum(bt)
    ensures totalWt == Sum(wt) && totalTat == Sum(tat)
    ensures (forall i :: 0 <= i < |bt| ==> bt[i] >= 0) ==>
              (forall i :: 0 <= i < |bt| ==> 0 <= wt[i] && bt[i] <= tat[i]) &&
              (forall i, j :: 0 <= i <= j < |bt| ==> wt[i] <= wt[j])
  {
    wt := FindWaitingTime(bt);
    tat := FindTurnAroundTime(bt, wt);
    totalWt, totalTat := 0, 0;
    var i := 0;
    while i < |bt|
      invariant 0 <= i <= |bt|
      invariant totalWt == Sum(wt[..i]) && totalTat == Sum(tat[..i])
    {
      SumPrefix(wt, i);
      SumPrefix(tat, i);
      totalWt := totalWt + wt[i];
      totalTat := totalTat + tat[i];
      i := i + 1;
    }
    assert wt[..i] == wt && tat[..i] == tat;
    if forall i :: 0 <= i < |bt| ==> bt[i] >= 0 {
      WaitingMonotone(bt, wt, tat);
    }
  }

  /** The hard-coded driver: bursts 10, 5 and 8 in that order. */
  method Driver() returns (wt: seq<int>, tat: seq<int>, totalWt: int, totalTat: int)
    ensures wt == [0, 10, 15]
    ensures tat == [10, 15, 23]
    ensures totalWt == 25 && totalTat == 48
  {
    var bt := [10, 5, 8];
    wt, tat, totalWt, totalTat := FindAvgTime(bt);
    assert bt[..0] == [] && bt[..1] == [10] && bt[..2] == [10, 5] && bt[..3] == bt;
    assert wt[0] == 0 && wt[1] == 10 && wt[2] == 15;
    assert tat[0] == 10 && tat[1] == 15 && tat[2] == 23;
    assert wt == [0, 10, 15];
    assert tat == [10, 15, 23];
    assert Sum([0, 10, 15]) == 25 by {
      assert [0, 10, 15][..2] == [0, 10] && [0, 10][..1] == [0] && [0][..0] == [];
    }
    assert Sum([10, 15, 23]) == 48 by {
      assert [10, 15, 23][..2] == [10, 15] && [10, 15][..1] == [10] && [10][..0] == [];
    }
  }
}
