# Redis latency monitor: sampling loop and statistics

A Dafny model of the measurement core of `redis-latency-monitor` (version 3.2.3, the `cli` and `stats` packages).

The tool sleeps 10 ms before each probe, so probes are spaced by 10 ms plus the probe's own duration. In command mode the probe is PING over a kept-open connection; in connect mode (`-c`) it is a TCP dial that is closed at once, with a 100 ms sleep before each. Each probe's duration in microseconds goes into a fixed-size array. At every interval boundary the tool sorts the array prefix collected so far and emits one row: min, max, mean, standard deviation, p95 and p99.

The model has three modules, one per concern of the source:

- `Stats` (`stats.dfy`) models `stats.Data` and its statistics.
  - `Sort` is an in-place sort on an array prefix. `Sum` and `StandardDeviation` are loops.
  - `Min`, `Max`, `Mean` and `Percentile` are functions.
  - `uint64` and `int64` wrap-around are written out explicitly (`% Modulus64`, `Wrap64`), as is Go's truncating division (`TruncDiv`).
- `Probe` (`probe.dfy`) models the package-level `conn` and `errorLogged` variables and the error log.
  - The class `Prober` holds them, with `connectToRedis`, `execCommand` and `makeConnection` as its methods.
  - Each method is proved equal to a pure transition function, and the logging properties are proved about those functions and about `ProbeRun`, a run of probes.
- `Monitor` (`monitor.dfy`) models `createMeasurementsSlice`, `alignTime`, `printMeasurements` and the loop of `measureLatency`.
  - The loop's counters (`pointer`, `errors`, `count`, `last`) evolve by the pure `Advance`. Its invariant, conservation and cadence lemmas are proved over runs of it.
  - The class `Sampler` holds the counters and the measurement array. `Sampler.Tick` is one loop iteration after the probe and is proved to follow `Advance`.
  - `MeasureLatency` runs the loop over a list of iterations. Its final probe state and counters are proved equal to those of `ProbeRun` and `AdvanceRun`, as are the flush fields of its rows, so the conservation laws hold for it.
  - `IntervalRun` states on the samples themselves which durations each boundary reports. The statistics of every emitted row are proved to be `Report` of that interval's durations in ascending order (`SortedSamples`), and `IntervalsMatchFlushes` shows that these intervals agree with the counters' flushes.

Clock readings are integer microseconds supplied by the caller, and every network call is replaced by its outcome (`Network`), also supplied by the caller.

Behaviour of the code a reader might not expect, which the model keeps:

- **Triggering sample.** The sample of the tick that crosses a boundary is stored at `measurements[pointer]`, but the flush covers only `measurements[:pointer]`. `pointer` restarts at 0, so no later flush reaches that slot before it is rewritten, and the sample is dropped, not carried over. `IntervalRun` keeps none of it. `Conservation` states this: every boundary drops exactly one sample. The error of that same tick is counted in the flushed interval.
- **Buffer size.** The buffer is `interval*1000/sampleRate` with no extra slot. `InvBoundsPointer` and `FlushesFitBuffer` show that none is needed while every iteration sleeps at least the sample rate.
- **Alignment.** `alignTime` tests the seconds field of the wall clock modulo the interval, or for zero when the interval is 60 s or more. For an interval that does not divide 60 this is not a multiple of the interval since any fixed origin.
- **Failed probes are samples.** The duration of a failed probe is stored and reported like any other (cli/cli.go:298-305, 324): a 3 s dial timeout becomes the interval's maximum. `Tick` stores `dur` whatever the probe's result, and `IntervalRun` keeps it.
- **Reconnect after a failed AUTH.** When a reconnect dials successfully but the AUTH write fails, `execCommand` returns 1 with the new connection kept. The next probe then writes PING on it without reconnecting.

One behaviour is not kept. When a boundary is reached with no sample kept since the last flush, the code panics: `stats.Max` indexes -1. The loop model instead uses the corrected `Report`, which returns the all-zero row. In the table that row renders as dash placeholders; a CSV line prints `0.000` for each statistic. See "## Findings".

## Model

| member | source | states |
|---|---|---|
| Stats.Swap | stats/stats.go:22 | exchanges the two cells, leaves every other cell unchanged, and keeps the multiset of the array |
| Stats.Sort | stats/stats.go:27-33 | the slice `a[:n]` becomes sorted ascending and a permutation of itself; cells beyond `n` are untouched; an empty slice returns at once |
| Stats.SortedPermutationUnique | stats/stats.go:32 | two sorted permutations of the same samples are equal, so the result of `sort.Sort` is determined whatever its algorithm |
| Stats.Insert | stats/stats.go:32 | inserting into a sorted sequence gives a sorted sequence holding the old samples plus the new one |
| Stats.SortedSamples | stats/stats.go:32 | a reference sort: the samples in ascending order, as a permutation of themselves |
| Stats.Sum | stats/stats.go:36-48 | the sum of all samples modulo 2^64 (0 for no samples) |
| Stats.Min | stats/stats.go:53-59 | 0 on empty data; on sorted non-empty data an element that is at most every element |
| Stats.Max | stats/stats.go:62-64 | needs non-empty data; an element of the data; on sorted data at least every element |
| Stats.Less | stats/stats.go:21 | the order `Sort` compares cells by: a strictly smaller value (a predicate, no contract of its own) |
| Stats.Mean | stats/stats.go:67-69 | the wrapped sum divided by the count; needs non-empty data; its meaning is stated by `MeanTruncates` (no contract of its own) |
| Stats.MeanTruncates | stats/stats.go:67-69 | `Mean` is the truncated quotient of the wrapped sum by the count |
| Stats.MeanOfSmallSum | stats/stats.go:67-69 | when the sum does not wrap, `Mean` is the exact sum divided by the count |
| Stats.MeanBetweenMinMax | stats/stats.go:67-69 | on sorted data whose sum does not wrap, `Min <= Mean <= Max` |
| Stats.MeanConstant | stats/stats.go:67-69 | `n` copies of `v` have mean `v` when `v*n` does not wrap |
| Stats.Wrap64 | stats/stats.go:78 | the int64 two's-complement value of an integer: in the int64 range, congruent to it modulo 2^64, and the identity on the int64 range |
| Stats.TruncDiv | stats/stats.go:81 | Go's signed division: `a == q*b + rem` with `0 <= rem < b` for a non-negative dividend and `-b < rem <= 0` for a negative one |
| Stats.RootOfVariance | stats/stats.go:81-83 | 0 for a negative (overflowed) variance |
| Stats.RootOfVarianceBracket | stats/stats.go:81-83 | for a non-negative variance the result `r` satisfies `r*r*n <= variance < (r+1)*(r+1)*n`: the floor root of the truncated quotient |
| Stats.Isqrt | stats/stats.go:83 | the floor square root: `r*r <= x < (r+1)*(r+1)` |
| Stats.StandardDeviation | stats/stats.go:72-84 | the loop's int64 accumulator followed by the truncating division and the square root yields `StdDevOf(d)` |
| Stats.AccumulatorExact | stats/stats.go:75-79 | with samples, mean and the exact sum of squares below 2^63, the int64 accumulator equals the exact sum of squared deviations |
| Stats.StdDevExact | stats/stats.go:72-84 | without overflow the accumulator is non-negative and the result is the floor square root of the truncated population variance about the truncated mean |
| Stats.StdDevConstant | stats/stats.go:72-84 | a constant sequence whose sum does not wrap has standard deviation 0 |
| Stats.RankIndex | stats/stats.go:92-98 | the nearest-rank position `k < n` with `100*k < p*n <= 100*(k+1)`, that is `ceil(p*n/100) - 1` |
| Stats.Percentile | stats/stats.go:87-98 | 0 when `percent > 100`; otherwise every index is in bounds and the result is the element at the nearest-rank position |
| Stats.PercentileHundredIsMax | stats/stats.go:92-95 | the 100th percentile is `Max` for every non-empty input |
| Stats.RankIndexMonotone | stats/stats.go:92-98 | the nearest-rank position never decreases as the percent grows |
| Stats.PercentileMonotone | stats/stats.go:87-98 | on sorted data `Percentile` is monotone in the percent |
| Stats.PercentileBetweenMinMax | stats/stats.go:87-98 | on sorted data every percentile lies between `Min` and `Max` |
| Probe.Failure | cli/cli.go:340-345 | a failure is logged only when an error log is configured and the flag is clear; logging sets the flag; `conn` becomes nil |
| Probe.ConnectStep | cli/cli.go:237-263 | success exactly when the dial succeeds and, with a password set, the AUTH write succeeds; an error is returned on reconnect and exits otherwise; `conn` is open after a successful dial and nil after a failed one |
| Probe.ExecStep | cli/cli.go:330-366 | 0 exactly when a connection exists or reconnecting succeeds, the PING write succeeds and the read ends in a line or EOF; a failed reconnect returns 1 and leaves the state the reconnect left; after a connection or a successful reconnect, a write error, or a read error other than EOF, gives the state of `Failure` with that error's entry (logged when logging is on and the flag is clear, `conn` nil); success clears the flag and keeps the connection; at most one log entry is added, only on a failure with logging on and the flag clear |
| Probe.MakeConnectionStep | cli/cli.go:369-388 | the result is 0 or 1; 0 exactly when the dial succeeds, leaving the connection closed and the flag clear; a dial error gives the state of `Failure` with the dial entry: logged when logging is on and the flag is clear, `conn` nil |
| Probe.ProbeStep | cli/cli.go:298-302 | the probe of the configured mode: 0 or 1; success clears the flag and keeps the log; a failure leaves `conn` nil, except for a failed reconnect in command mode |
| Probe.ProbeRun | cli/cli.go:298-302 | a run of probes yields one result per probe, each 0 or 1 |
| Probe.ProbeRunEntry | cli/cli.go:298-302 | the `i`-th result of a run is the result of probe `i` made from the state the earlier probes left |
| Probe.ProbeRunSnoc | cli/cli.go:298-302 | extending a run by one probe runs that probe from the state the run left and appends its result |
| Probe.ProbeStepLog | cli/cli.go:340-385 | one probe never shrinks the log and adds at most one entry; success clears the flag; a failure never clears it |
| Probe.FailureRunLogsAtMostOnce | cli/cli.go:330-388 | during a run of consecutive failures at most one entry is logged, none if the flag was already set, and the log only grows |
| Probe.FailureStepLogs | cli/cli.go:340-343 | a failed probe on an open connection, or in connect mode, logs one entry and sets the flag when logging is on and the flag is clear |
| Probe.FailureRunLogsOnce | cli/cli.go:330-388 | a run of consecutive failures that starts with logging on, the flag clear and a connection to probe (or connect mode) logs exactly one entry and ends with the flag set |
| Probe.NoErrorLogNoEntries | cli/cli.go:340-343 | without an error log nothing is ever logged |
| Probe.Prober.constructor | cli/cli.go:112-124 | no connection, flag clear, empty log |
| Probe.Prober.ConnectToRedis | cli/cli.go:237-263 | the new state and result are those of `ConnectStep` |
| Probe.Prober.Fail | cli/cli.go:340-345 | the new state is that of `Failure` |
| Probe.Prober.ExecCommand | cli/cli.go:330-366 | the new state and result are those of `ExecStep` |
| Probe.Prober.MakeConnection | cli/cli.go:369-388 | the new state and result are those of `MakeConnectionStep` |
| Monitor.SampleRate | cli/cli.go:282-287 | the milliseconds between probes of the mode: positive and dividing a second evenly |
| Monitor.MeasurementsSize | cli/cli.go:507-510 | the buffer holds exactly one interval of samples at the nominal rate (`size*rate == interval*1000`), at least 10 |
| Monitor.AlignTime | cli/cli.go:486-504 | stops at the first reading whose seconds field is 0 (interval of 60 s or more) or divisible by the interval, and at no earlier reading |
| Monitor.NextMinuteAligned | cli/cli.go:489-503 | the next whole minute is aligned for every interval, so the polling ends within one minute |
| Monitor.Advance | cli/cli.go:298-325 | a flush exactly when `now - last >= interval`; a flush hands on `pointer` samples and the errors including this tick's, and resets `pointer` and `errors` with `last` set to this tick's start; otherwise `pointer` grows by one, the failure is added, and `last` and `count` stay |
| Monitor.AdvanceKeepsInv | cli/cli.go:293-325 | one iteration on schedule keeps the invariant: `pointer` steps each took a sleep since `last`, a non-zero `pointer` lies before the boundary, and `count < 10` (0 outside pretty mode) |
| Monitor.InvBoundsPointer | cli/cli.go:305 | under the invariant `pointer` is below the buffer size, so the write is in bounds |
| Monitor.EmptyFlushReachable | cli/cli.go:307-310 | from the state right after `alignTime`, one probe blocked for three seconds with an interval of one second reaches the boundary with `pointer == 0`, flushing an empty slice |
| Monitor.Conservation | cli/cli.go:305-325 | over a run, flushed samples + flushes + final `pointer` = initial `pointer` + iterations (each boundary drops its own sample), and flushed errors + final `errors` = initial `errors` + failures |
| Monitor.SeparatorCadence | cli/cli.go:312-319 | in pretty mode the final `count` is the number of rows since the last separator, and one separator is emitted per ten rows |
| Monitor.AdvanceRun | cli/cli.go:293-326 | a run of loop iterations after the probes: the final counters and the flushes in order, at most one per iteration |
| Monitor.IntervalRun | cli/cli.go:305-324 | the samples of a run: each boundary reports the durations kept since the previous one and keeps none, not even its own; at most one interval per iteration |
| Monitor.AdvanceRunSnoc | cli/cli.go:293-326 | extending a run by one iteration applies `Advance` to the counters the run left and appends its flush, if any |
| Monitor.FlushesFitBuffer | cli/cli.go:289-325 | on any scheduled run the invariant holds throughout and every flushed slice is shorter than the buffer |
| Monitor.Summarize | cli/cli.go:394-399 | the six statistics `printMeasurements` computes, needing a non-empty slice; on sorted data `min <= p95 <= p99 <= max`, with `min` and `max` samples |
| Monitor.Report | cli/cli.go:391-399 | the statistics of a flushed slice: all zeros for an empty slice (dash placeholders in the table, `0.000` in CSV); on sorted non-empty data `min <= p95 <= p99 <= max`, with `min` and `max` samples |
| Monitor.ReportDependsOnSamplesOnly | cli/cli.go:392 | two sorted arrangements of the same samples give the same row |
| Monitor.ReportMeanBetween | cli/cli.go:394-396 | on sorted samples whose sum does not wrap the row's mean lies between its min and max |
| Monitor.FiveSampleReport | cli/cli.go:394-399 | the samples 10, 20, 30, 40, 100 give min 10, max 100, mean 40, standard deviation 31, p95 100 and p99 100 |
| Monitor.PrintMeasurements | cli/cli.go:391-399 | the slice `a[:n]` is sorted in place as a permutation of itself, the rest untouched, and the statistics are those of the sorted slice |
| Monitor.StoreAndPrint | cli/cli.go:305-310 | `dur` is stored at `pointer`, the first `pointer` cells become a sorted permutation of themselves, later cells are untouched, and the row's statistics are `Report` of the prefix's samples in ascending order |
| Monitor.Sampler.constructor | cli/cli.go:289-291 | a buffer of `createMeasurementsSlice`'s size, zero counters, `last` set to the aligned instant, and the invariant established |
| Monitor.Sampler.Tick | cli/cli.go:294-325 | keeps the invariant; the counters follow `Advance`; a row is emitted exactly at a boundary, over `measurements[:pointer]` sorted, with the tally including this tick's failure; `measurements[:pointer]` becomes a sorted permutation of itself, `dur` is stored at `pointer`, later cells are untouched and the row's statistics are `Report` of the sorted prefix; otherwise only `measurements[pointer]` changes, to `dur` |
| Monitor.Iteration | cli/cli.go:293-325 | one pass of the loop body: the probe follows `ProbeStep` for the configured mode, then the counters and the row's flush follow `Advance` with that probe's result; at a boundary the array prefix is sorted, `dur` is stored, the row's statistics are `Report` of the kept samples `measurements[:pointer]` in ascending order (`SortedSamples`) and none are kept afterwards; otherwise only `measurements[pointer]` changes, to `dur`, which joins the kept samples |
| Monitor.ReportOfKept | cli/cli.go:305-310 | after a boundary tick the row's statistics, computed on the sorted prefix, equal `Report` of the samples kept before the tick in ascending order |
| Monitor.MeasureLatency | cli/cli.go:266-327 | over any scheduled run the invariant holds; the final probe state is `ProbeRun`'s; the final counters and the rows' flushes are `AdvanceRun`'s over the resulting timings; flushed samples + rows + final `pointer` = initial `pointer` + iterations; flushed errors + final `errors` = initial `errors` + failed probes; every row covers fewer samples than the buffer holds; the rows' statistics are, in order, `Report` of each interval of `IntervalRun` in ascending order, and the kept samples at the end are `IntervalRun`'s |
| Monitor.IntervalRunSnoc | cli/cli.go:305-324 | extending a run by one iteration reports the kept samples and keeps none when the boundary is reached from the `last` the run left, and otherwise keeps this iteration's duration |
| Monitor.IntervalsMatchFlushes | cli/cli.go:305-324 | starting with `pointer` kept samples, `IntervalRun` and `AdvanceRun` agree: as many intervals as flushes, each interval as long as its flush's `pointer`, and the same final `last` and `pointer` |

## Left out

- Network I/O (`net.DialTimeout`, `conn.Write`, `buf.ReadString`, `conn.Close`): each call is replaced by its outcome, supplied as a `Network` value.
  - `buf` stays bound to the first connection after a reconnect, so read outcomes are independent inputs. The model does not claim that a reconnect restores reads.
- Wall clock and sleep (`time.Now`, `time.Since`, `time.Sleep`): readings are integer microseconds supplied by the caller.
  - The two readings after the probe (for `dur` and for the boundary test) become the parameters `dur` and `now`.
  - The sleep is the precondition that each probe starts at least one sample period after the previous check.
- `Monitor.AlignTime`: polls a finite list of readings and returns `None` when it runs out; the source polls forever.
- `Monitor.MeasureLatency`: runs a finite list of iterations; the source loops forever.
- Monitor.PrintMeasurements: on an empty slice it returns the all-zero row of `Report`, where the source panics in `stats.Max` (see "## Findings").
- Monitor.Sampler.Tick: a boundary with `pointer == 0` emits `Report`'s all-zero row, where the source panics (see "## Findings").
- Process exit: `connectToRedis(false)` exits the process on an error; the model returns `Exit` without ending anything.
- Option parsing, table and CSV rendering, timestamps, colours and `formatNumber`: the model computes the row's values, not its text. In the table a 0 renders as a dash placeholder (cli/cli.go:437-439); a CSV line prints `0.000` for it.
- The `flushOutput` goroutine: concurrent flushing of the output writer is not modelled.
- The older single-file `redis-latency-monitor.go` is not part of this model. Its loop duplicates the one in `cli/cli.go`, and its statistics come from an external float library.
- `Data.Len` has no behaviour beyond the length of the sequence.
- `sort.Sort` is the standard library's algorithm. The model sorts by insertion through `Less` and `Swap`, and `SortedPermutationUnique` shows that the result does not depend on the algorithm.
- Floating point inside the statistics:
  - `Stats.Isqrt`: an exact floor square root stands in for `uint64(math.Pow(vr, 0.5))`. For quotients above 2^52 the float result may differ by rounding: the rounded square root of `(2^26+1)^2 - 1` truncates to `2^26+1`, while the floor root is `2^26`.
  - `Stats.Percentile`: takes an integer percent and uses exact rational arithmetic for `(percent/100)*n`. The float product can round differently for very large `n`. A percent of 0 or below, or a fractional one, is not modelled.
- `Stats.RootOfVariance`: an int64 overflow can make the variance negative. The source then converts `NaN` to `uint64`, which Go leaves to the platform; the model returns 0.

## Findings

| source | as written | input that shows it | evidently intended | confidence | as-written member | corrected member |
|---|---|---|---|---|---|---|
| cli/cli.go:307-310 | at a boundary, `printMeasurements` receives `measurements[:pointer]` even when `pointer` is 0; then `stats.Max` indexes -1 and `stats.Mean` divides by zero (stats/stats.go:62-69), so the process panics; `Monitor.Summarize` models these statistics with the non-empty precondition they need | interval 1 s, the first probe after `alignTime` blocks for 3 s (a dial timeout): `pointer == 0` when `time.Since(last) >= interval` | an interval with no kept sample yields the all-zero row: dash placeholders in the table, `0.000` in CSV | not executed | Monitor.EmptyFlushReachable | Monitor.Report |
