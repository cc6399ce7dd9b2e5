# Non-preemptive CPU scheduling: FCFS and SJF timing

This project models the two small scheduling calculators of the repository
and proves properties of them in Dafny 4.11.

- `fcfss.c` is First-Come-First-Served. `findWaitingTime` computes waiting
  times with a prefix-sum recurrence over the bursts in input order.
  `findTurnAroundTime` adds each waiting time to its burst.
  `findAvgTime` runs both and totals the two arrays.
- `sjf.c` is Shortest-Job-First. `main` labels process i with id i. An
  exchange sort then reorders the burst array and the id array together.
  The waiting-time recurrence runs over the sorted order. Turnaround uses
  its own cumulative recurrence, `tat[i] = tat[i-1] + bt[i]`.

Modules:

- `Sums` (`sums.dfy`) defines `Sum`, the reference definition.
  The waiting time of the process at dispatch position i is the sum of the
  bursts before it.
- `Timing` (`timing.dfy`) states the two recurrences as predicates. Both
  programs share them. Its lemmas prove what the recurrences mean: prefix
  sums, turnaround = waiting + burst, completion times, monotonicity.
- `Fcfs` (`fcfs.dfy`) has one method per C function, each with the loop
  of the original. It also has the hard-coded driver.
- `Float32` (`float32.dfy`) models the conversion of an `int` to a
  single-precision `float` and back, which `sjf.c` applies to the first
  turnaround.
- `Sjf` (`sjf.dfy`) takes the sort and the timing loop out of `main`, as
  separate methods. `InnerPass`/`OuterPasses`/`ExchangeSort` are a
  functional model of the same two nested loops. Concrete inputs can be
  computed from them.

C arrays become Dafny sequences. Each operation returns its result as a
fresh sequence of the same length instead of writing into a caller's
array. Integers are unbounded.

Facts about the code that the model keeps:

- The exchange sort is not stable. It swaps position i with any later
  strictly smaller burst. With bursts 4, 4, 2 the ids end as 2, 1, 0
  (`Sjf.ExchangeSortIsNotStable`).
- The code validates nothing, and it reads and writes index 0
  unconditionally. The model therefore requires at least one process and
  accepts any integer bursts.
- `sjf.c` uses fixed arrays of 10, so `Sjf.Run` requires at most
  `MaxProcesses` (10).
- In `sjf.c` the first turnaround is assigned through the `float`
  accumulator (`tat[0] = tatavg = bt[0]`). It is therefore the smallest
  burst after a round trip through `float`. `Float32` models that
  conversion: binary32 with round-to-nearest, ties to even. The round trip
  is exact for magnitudes up to 2^24, and 2^24 + 1 becomes 2^24. Every
  SJF turnaround carries the same rounding error as the first one.

## Model

| member | source | states |
|---|---|---|
| `Fcfs.FindWaitingTime` | fcfss.c:2-7 | For n >= 1 bursts: wt[0] = 0, wt[i] = wt[i-1] + bt[i-1] for 1 <= i < n, and wt[i] is the sum of bt[0..i) |
| `Fcfs.FindTurnAroundTime` | fcfss.c:8-12 | tat[i] = bt[i] + wt[i] for every i. When wt follows the waiting recurrence, tat[i] is the sum of bt[0..i] and tat[n-1] is the sum of all bursts |
| `Fcfs.FindAvgTime` | fcfss.c:13-23 | Waiting and turnaround times as above. `total_wt` and `total_tat` are the integer sums of wt and tat. With non-negative bursts: wt is non-negative and non-decreasing, and tat[i] >= bt[i] |
| `Fcfs.Driver` | fcfss.c:29-34 | Bursts 10, 5, 8 give wt = [0, 10, 15], tat = [10, 15, 23], totals 25 and 48 |
| `Timing.WaitingIsPrefixSum` | fcfss.c:3-6 | Any sequence satisfying the waiting recurrence is the prefix sums of the bursts |
| `Timing.WaitingIsPrefixSumAt` | sjf.c:28-32 | The same, at one position, by induction on the position |
| `Timing.CumulativeIsWaitPlusBurst` | sjf.c:28-33 | Given the waiting recurrence, tat satisfies tat[0] = bt[0], tat[i] = tat[i-1] + bt[i] exactly when tat[i] = wt[i] + bt[i] for all i (both directions) |
| `Timing.CumulativeIsWaitPlusBurstAt` | sjf.c:29-33 | Given the waiting recurrence and tat[0] = first, tat[i] = tat[i-1] + bt[i]: tat[i] = wt[i] + bt[i] + (first - bt[0]), by induction on the position |
| `Timing.CumulativeFromIsOffset` | sjf.c:29-33 | For n >= 1, started from any first value: every tat[i] is off wt[i] + bt[i] by first - bt[0], and tat[n-1] is off the total of the bursts by the same amount |
| `Timing.TurnaroundIsCompletionTime` | fcfss.c:3-11 | Waiting recurrence plus tat = wt + bt give tat[i] = sum of bt[0..i]. The last turnaround is the sum of all bursts |
| `Timing.WaitingMonotone` | fcfss.c:3-11 | With non-negative bursts: wt[i] >= 0, wt is non-decreasing, and tat[i] >= bt[i] |
| `Sums.SumPermutation` | sjf.c:19-25 | Reordering bursts leaves their total unchanged. So the SJF total equals the total of the original bursts |
| `Sums.PrefixSumsNonDecreasing` | fcfss.c:5 | With non-negative elements, prefix sums are non-negative and grow with the prefix length |
| `Float32.RoundMagnitude` | sjf.c:29 | The rounded magnitude is the multiple of the `float` spacing just below m or just above it, and at most half a spacing away from m |
| `Float32.FloatRoundTrip` | sjf.c:29 | `(int)(float)x` keeps the sign of x and is at most half a `float` spacing away from x |
| `Float32.RoundTripExact` | sjf.c:29 | Every integer of magnitude at most 2^24 survives the round trip unchanged |
| `Float32.RoundTripInexact` | sjf.c:29 | 2^24 + 1 rounds to 2^24, while every integer from 0 to 2^24 survives |
| `Sjf.InnerPass` | sjf.c:17-26 | Functional form of the inner loop: compare position i with each k, swap on strict `>`. Keeps both array lengths |
| `Sjf.OuterPasses` | sjf.c:16-26 | Functional form of the outer loop from position i on. Keeps both array lengths |
| `Sjf.ExchangeSort` | sjf.c:16-26 | The state both nested loops leave behind. Keeps both array lengths |
| `Sjf.ExchangeStep` | sjf.c:18-25 | One comparison, swapping or not, keeps the pass invariant: the prefix before i is untouched, position i is at most every compared position, and the (id, burst) pairs and both arrays stay the same multisets |
| `Sjf.ExchangePass` | sjf.c:17-26 | After the inner loop at i: positions before i are unchanged, bt[i] <= bt[k] for every k > i, pairs are only permuted, a prefix that was below the suffix stays below. The result equals `InnerPass` |
| `Sjf.InnerPassKeeps` | sjf.c:17-26 | The functional inner pass keeps the pass invariant to the end of the array: prefix untouched, position i at most every later one, pairs permuted |
| `Sjf.OuterStep` | sjf.c:16-26 | One functional outer pass at i extends the sorted prefix from i to i + 1 positions and only permutes the (id, burst) pairs |
| `Sjf.OuterPassesSorts` | sjf.c:16-26 | If the first i positions are in order and at most every later one, the functional outer passes from i leave the bursts sorted and the (id, burst) pairs permuted |
| `Sjf.ExchangeSortSorts` | sjf.c:16-26 | The functional exchange sort returns non-decreasing bursts, and its (id, burst) pairs are a permutation of the input pairs |
| `Sjf.SortByBurst` | sjf.c:16-26 | The result equals `ExchangeSort` and is non-decreasing. The multiset of (p[j], bt[j]) pairs is the input's, as are the multisets of bursts and of ids |
| `Sjf.ComputeTimes` | sjf.c:28-36 | For n >= 1: wt[0] = 0 and wt[i] = wt[i-1] + bt[i-1]. tat[0] = (int)(float)bt[0] and tat[i] = tat[i-1] + bt[i]. Every tat[i] = wt[i] + bt[i] + the rounding error of bt[0]. `Timing.CumulativeFromIsOffset` gives tat[n-1] as the sum of all bursts plus that error, and `Sjf.ExactWhenSmall` gives the exact case |
| `Sjf.Run` | sjf.c:4-36 | For 1 <= n <= 10 the ids start as 0..n-1. After the sort they are a permutation of 0..n-1. The sorted bursts are non-decreasing. Each sorted burst is the original burst of the process now at that position. The waiting recurrence holds over the sorted order, and the turnaround recurrence starts from the smallest burst rounded through `float`. tat[n-1] is the total of the original bursts plus that rounding error. |
| `Sjf.ExactWhenSmall` | sjf.c:28-33 | Timing sequences satisfying the SJF recurrences over a reordering sbt of the bursts (sbt = bt included), with -2^24 <= sbt[0] <= 2^24: tat[0] = sbt[0] exactly, tat[i] = wt[i] + sbt[i], and tat[n-1] is the total of the original bursts |
| `Sjf.SortExample` | sjf.c:16-26 | Through the sorting method itself: bursts 10, 5, 8 become 5, 8, 10 carrying processes 1, 2, 0 |
| `Sjf.Example` | sjf.c:16-33 | Bursts 10, 5, 8 run as processes 1, 2, 0 with bursts 5, 8, 10, waiting times 0, 5, 13 and turnaround times 5, 13, 23 |
| `Sjf.ExchangeSortIsNotStable` | sjf.c:16-26 | Bursts 4, 4, 2 sort to bursts 2, 4, 4 and ids 2, 1, 0: the two equal bursts end in reverse input order |
| `Sjf.ExchangeSortExample` | sjf.c:16-26 | Bursts 10, 5, 8 are dispatched as processes 1, 2, 0 with bursts 5, 8, 10 |

## Left out

- All `printf`/`scanf` input and output, the table layout, and the 1-based
  labels of `fcfss.c`. These are presentation. The caller supplies the bursts
  and consumes the results.
- The floating-point averages: the `float` divisions in `findAvgTime`, and
  the `float` accumulators `wtavg`/`tatavg` of `sjf.c` with their divisions.
  For FCFS the integer totals are modelled and the division is not. The SJF
  accumulators are the sums of `wt` and `tat`; they are not modelled. What
  the accumulators do to `tat[0]` is modelled (`Float32`). `wt[0] = wtavg = 0`
  is exact.
- The `float` rounding mode. `Float32` assumes IEEE 754 binary32 and the
  default round-to-nearest, ties-to-even. C leaves both to the platform.
- Zero processes. The code writes or reads index 0 and divides by `n`.
  The timing operations therefore require at least one process. The sort
  alone is defined for any length.
- Input validation (negative counts or bursts). The code performs none, so
  the model accepts any integers. Non-negative bursts appear only as the
  hypothesis of the monotonicity results.
- C `int` overflow. The model uses unbounded integers, and assumes that no
  sum of bursts exceeds the range of `int`. This includes the conversion
  back to `int` of a burst near `INT_MAX` that rounds up to 2^31.
- The fixed array capacity of `sjf.c`. It is only a precondition of
  `Sjf.Run` (`MaxProcesses`), not behaviour.
- "Nothing else changes": `findWaitingTime` writes only `wt`, and
  `findTurnAroundTime` writes only `tat`. The model passes bursts as
  immutable sequences and returns results as new sequences. No operation can
  write anything but its results, so this is not a separate contract.
  Aliasing between the C arrays is not modelled.
- Fcfs.FindTurnAroundTime: requires `wt` to have exactly as many entries as
  `bt`. The C function reads only the first `numProcesses` entries of arrays
  of at least that size. In `findAvgTime` both arrays have exactly that size.
