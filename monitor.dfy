/**
 * The measurement loop of the latency monitor (`measureLatency` and the
 * helpers it uses): a fixed-size sample array with a write `pointer`, an
 * `errors` tally, a table-row `count` and the `last` flush time.  Clocks are
 * integer microsecond readings passed in by the caller; probe outcomes come
 * from the `Probe` module.
 */
module Monitor {
  import opened Stats
  import opened Probe

  datatype Option<T> = None | Some(value: T)

  /** Milliseconds between probes in command mode and in connect mode. */
  const LatencySampleRate: nat := 10
  const ConnectSampleRate: nat := 100

  /** The options the loop consults: the interval in seconds, `-c` (connect mode) and pretty (table) output. */
  datatype Config = Config(interval: int, connectMode: bool, pretty: bool)

  /** The option parser accepts intervals from 1 to 3600 seconds. */
  predicate ValidConfig(cfg: Config) {
    1 <= cfg.interval <= 3600
  }

  /** Milliseconds between probes: a whole number of probes fits in each second. */
  function SampleRate(connectMode: bool): (r: nat)
    ensures r > 0 && 1000 % r == 0
  {
    if connectMode then ConnectSampleRate else LatencySampleRate
  }

  /** `createMeasurementsSlice`: room for one interval of samples at the nominal rate, and no more. */
  function MeasurementsSize(interval: int, sampleRate: nat): (size: nat)
    requires 1 <= interval <= 3600
    requires sampleRate == LatencySampleRate || sampleRate == ConnectSampleRate
    ensures size * sampleRate == interval * 1000
    ensures size >= 10
  {
    assert sampleRate == LatencySampleRate ==> (interval * 1000) / sampleRate == interval * 100;
    assert sampleRate == ConnectSampleRate ==> (interval * 1000) / sampleRate == interval * 10;
    (interval * 1000) / sampleRate
  }

  function BufferSize(cfg: Config): nat
    requires ValidConfig(cfg)
  {
    MeasurementsSize(cfg.interval, SampleRate(cfg.connectMode))
  }

  function IntervalMicros(cfg: Config): int {
    cfg.interval * 1_000_000
  }

  function SleepMicros(cfg: Config): nat {
    SampleRate(cfg.connectMode) * 1000
  }

  // ---------------------------------------------------------------------------
  // alignTime

  /** `time.Time.Second()` of an instant given in microseconds. */
  function SecondOf(t: nat): nat {
    (t / 1_000_000) % 60
  }

  /** The instants `alignTime` accepts. */
  predicate Aligned(interval: int, t: nat)
    requires interval >= 1
  {
    if interval >= 60 then SecondOf(t) == 0 else SecondOf(t) % interval == 0
  }

  /**
   * `alignTime`: polls the clock (`readings` are the successive values of
   * `time.Now()`) and stops at the first aligned reading; `None` when the given
   * readings run out first (the source keeps polling).
   */
  method AlignTime(interval: int, readings: seq<nat>) returns (found: Option<nat>)
    requires 1 <= interval <= 3600
    ensures found.Some? ==> found.value < |readings| && Aligned(interval, readings[found.value])
    ensures found.Some? ==> forall j :: 0 <= j < found.value ==> !Aligned(interval, readings[j])
    ensures found.None? ==> forall j :: 0 <= j < |readings| ==> !Aligned(interval, readings[j])
  {
    var i := 0;
    while i < |readings|
      invariant 0 <= i <= |readings|
      invariant forall j :: 0 <= j < i ==> !Aligned(interval, readings[j])
    {
      var now := readings[i];
      if interval >= 60 {
        if SecondOf(now) == 0 {
          return Some(i);
        }
      } else {
        if SecondOf(now) % interval == 0 {
          return Some(i);
        }
      }
      i := i + 1;
    }
    return None;
  }

  /** The start of the next whole minute after `t`. */
  function NextMinute(t: nat): nat {
    (t / 60_000_000 + 1) * 60_000_000
  }

  /** Whatever the interval, the next whole minute is aligned, so polling stops within a minute. */
  lemma NextMinuteAligned(interval: int, t: nat)
    requires interval >= 1
    ensures t < NextMinute(t) <= t + 60_000_000
    ensures Aligned(interval, NextMinute(t))
  {
    var k := t / 60_000_000 + 1;
    assert NextMinute(t) / 1_000_000 == k * 60;
  }

  // ---------------------------------------------------------------------------
  // The counters of the loop

  /** `pointer`, `errors`, `count`, `last`, and the clock reading of the latest boundary check. */
  datatype Counters = Counters(pointer: nat, errors: nat, count: nat, last: int, clock: int)

  /** What one boundary crossing hands to `printMeasurements`: `measurements[:pointer]`'s length, the error tally, and whether a table separator follows. */
  datatype Flush = Flush(samples: nat, errors: nat, separator: bool)

  /**
   * One loop iteration after the probe: add the probe's 0/1 result to
   * `errors`, then at a boundary (`now - last >= interval`) flush and reset,
   * otherwise advance `pointer`.
   */
  function Advance(cfg: Config, c: Counters, start: int, failed: nat, now: int): (r: (Counters, Option<Flush>))
    ensures r.0.clock == now
    ensures r.1.Some? <==> now - c.last >= IntervalMicros(cfg)
    ensures r.1.Some? ==>
      r.1.value.samples == c.pointer && r.1.value.errors == c.errors + failed &&
      r.0.pointer == 0 && r.0.errors == 0 && r.0.last == start
    ensures r.1.None? ==>
      r.0.pointer == c.pointer + 1 && r.0.errors == c.errors + failed &&
      r.0.last == c.last && r.0.count == c.count
  {
    var errors := c.errors + failed;
    if now - c.last >= IntervalMicros(cfg) then
      var count := if cfg.pretty then c.count + 1 else c.count;
      var separator := cfg.pretty && count == 10;
      (Counters(0, 0, if separator then 0 else count, start, now), Some(Flush(c.pointer, errors, separator)))
    else
      (Counters(c.pointer + 1, errors, c.count, c.last, now), None)
  }

  /**
   * What stays true between iterations: every `pointer` step took at least one
   * sleep since `last`, a non-zero `pointer` means no boundary has been
   * reached yet, and the row count stays below 10.
   */
  predicate Inv(cfg: Config, c: Counters) {
    c.pointer * SleepMicros(cfg) <= c.clock - c.last &&
    (c.pointer > 0 ==> c.clock - c.last < IntervalMicros(cfg)) &&
    c.count < 10 && (!cfg.pretty ==> c.count == 0)
  }

  /** The loop sleeps for the sample rate before each probe, and the clock never runs backwards. */
  predicate OnSchedule(cfg: Config, c: Counters, start: int, now: int) {
    start >= c.clock + SleepMicros(cfg) && now >= start
  }

  /** Every iteration keeps the invariant. */
  lemma AdvanceKeepsInv(cfg: Config, c: Counters, start: int, failed: nat, now: int)
    requires Inv(cfg, c) && OnSchedule(cfg, c, start, now)
    ensures Inv(cfg, Advance(cfg, c, start, failed, now).0)
  {
    var c' := Advance(cfg, c, start, failed, now).0;
    if c'.pointer > 0 {
      assert c'.pointer * SleepMicros(cfg) == c.pointer * SleepMicros(cfg) + SleepMicros(cfg);
    }
  }

  /** Under the invariant the write `measurements[pointer] = dur` is in bounds. */
  lemma InvBoundsPointer(cfg: Config, c: Counters)
    requires ValidConfig(cfg) && Inv(cfg, c)
    ensures c.pointer < BufferSize(cfg)
  {
    var size, rate := BufferSize(cfg), SampleRate(cfg.connectMode);
    if c.pointer > 0 {
      assert size * SleepMicros(cfg) == size * rate * 1000 == IntervalMicros(cfg);
      assert c.pointer * SleepMicros(cfg) < size * SleepMicros(cfg);
      MulCancel(c.pointer, size, SleepMicros(cfg));
    }
  }

  /** A boundary reached before any sample was kept flushes an empty slice. */
  lemma EmptyFlushReachable()
    ensures var cfg, c := Config(1, true, false), Counters(0, 0, 0, 0, 0);
      ValidConfig(cfg) && Inv(cfg, c) && OnSchedule(cfg, c, 100_000, 3_100_000) &&
      Advance(cfg, c, 100_000, 1, 3_100_000).1 == Some(Flush(0, 1, false))
  {
  }

  /** The timing of one iteration: when the probe started, its 0/1 result, and the clock at the boundary check. */
  datatype Timing = Timing(start: int, failed: nat, now: int)

  /** Each iteration sleeps before its probe and reads a clock that never runs backwards. */
  predicate Scheduled(cfg: Config, clock: int, ticks: seq<Timing>)
    decreases |ticks|
  {
    ticks == [] ||
    (ticks[0].start >= clock + SleepMicros(cfg) && ticks[0].now >= ticks[0].start &&
     Scheduled(cfg, ticks[0].now, ticks[1..]))
  }

  /** A run of iterations: the final counters and the flushes in order. */
  function AdvanceRun(cfg: Config, c: Counters, ticks: seq<Timing>): (r: (Counters, seq<Flush>))
    ensures |r.1| <= |ticks|
    decreases |ticks|
  {
    if ticks == [] then (c, [])
    else
      var (c1, f) := Advance(cfg, c, ticks[0].start, ticks[0].failed, ticks[0].now);
      var (c2, fs) := AdvanceRun(cfg, c1, ticks[1..]);
      (c2, (if f.Some? then [f.value] else []) + fs)
  }

  function FlushedSamples(fs: seq<Flush>): nat
    decreases |fs|
  {
    if fs == [] then 0 else fs[0].samples + FlushedSamples(fs[1..])
  }

  function FlushedErrors(fs: seq<Flush>): nat
    decreases |fs|
  {
    if fs == [] then 0 else fs[0].errors + FlushedErrors(fs[1..])
  }

  function Failures(ticks: seq<Timing>): nat
    decreases |ticks|
  {
    if ticks == [] then 0 else ticks[0].failed + Failures(ticks[1..])
  }

  /**
   * Every iteration records one sample and every boundary drops exactly one
   * (the triggering tick's: `pointer` restarts at 0, so no later flush reaches
   * that slot before it is rewritten), while no failure is ever lost from the
   * error tally.
   */
  lemma {:induction false} Conservation(cfg: Config, c: Counters, ticks: seq<Timing>)
    ensures var (c', fs) := AdvanceRun(cfg, c, ticks);
      FlushedSamples(fs) + |fs| + c'.pointer == c.pointer + |ticks| &&
      FlushedErrors(fs) + c'.errors == c.errors + Failures(ticks)
    decreases |ticks|
  {
    if ticks != [] {
      var (c1, f) := Advance(cfg, c, ticks[0].start, ticks[0].failed, ticks[0].now);
      Conservation(cfg, c1, ticks[1..]);
      var (c2, fs) := AdvanceRun(cfg, c1, ticks[1..]);
      assert AdvanceRun(cfg, c, ticks) == (c2, (if f.Some? then [f.value] else []) + fs);
      if f.Some? {
        assert ([f.value] + fs)[1..] == fs;
        assert FlushedSamples([f.value] + fs) == f.value.samples + FlushedSamples(fs);
        assert FlushedErrors([f.value] + fs) == f.value.errors + FlushedErrors(fs);
      } else {
        assert [] + fs == fs;
      }
    }
  }

  /** The number of flushed rows followed by a table separator. */
  function Separators(fs: seq<Flush>): nat
    decreases |fs|
  {
    if fs == [] then 0 else (if fs[0].separator then 1 else 0) + Separators(fs[1..])
  }

  /**
   * In pretty mode a separator follows every tenth row: after a run, `count`
   * is the number of rows since the last separator and the separators are the
   * completed groups of ten.
   */
  lemma {:induction false} SeparatorCadence(cfg: Config, c: Counters, ticks: seq<Timing>)
    requires cfg.pretty && c.count < 10
    ensures var (c', fs) := AdvanceRun(cfg, c, ticks);
      c'.count == (c.count + |fs|) % 10 && Separators(fs) == (c.count + |fs|) / 10
    decreases |ticks|
  {
    if ticks != [] {
      var (c1, f) := Advance(cfg, c, ticks[0].start, ticks[0].failed, ticks[0].now);
      assert c1.count < 10;
      SeparatorCadence(cfg, c1, ticks[1..]);
      var (c2, fs) := AdvanceRun(cfg, c1, ticks[1..]);
      assert AdvanceRun(cfg, c, ticks) == (c2, (if f.Some? then [f.value] else []) + fs);
      if f.Some? {
        assert ([f.value] + fs)[1..] == fs;
        assert Separators([f.value] + fs) == (if f.value.separator then 1 else 0) + Separators(fs);
        if f.value.separator {
          assert c.count == 9 && c1.count == 0;
        } else {
          assert c1.count == c.count + 1;
        }
      } else {
        assert [] + fs == fs;
      }
    }
  }

  /** On any scheduled run the invariant holds throughout and no flushed slice reaches the end of the buffer. */
  lemma {:induction false} FlushesFitBuffer(cfg: Config, c: Counters, ticks: seq<Timing>)
    requires ValidConfig(cfg) && Inv(cfg, c) && Scheduled(cfg, c.clock, ticks)
    ensures var (c', fs) := AdvanceRun(cfg, c, ticks);
      Inv(cfg, c') && forall i :: 0 <= i < |fs| ==> fs[i].samples < BufferSize(cfg)
    decreases |ticks|
  {
    if ticks != [] {
      var t := ticks[0];
      var (c1, f) := Advance(cfg, c, t.start, t.failed, t.now);
      AdvanceKeepsInv(cfg, c, t.start, t.failed, t.now);
      InvBoundsPointer(cfg, c);
      FlushesFitBuffer(cfg, c1, ticks[1..]);
      var (c2, fs) := AdvanceRun(cfg, c1, ticks[1..]);
      var all := (if f.Some? then [f.value] else []) + fs;
      assert forall i :: 0 <= i < |all| ==> all[i] == (if f.Some? && i == 0 then f.value else fs[if f.Some? then i - 1 else i]);
    }
  }

  // ---------------------------------------------------------------------------
  // printMeasurements

  /** The statistics of one interval, in microseconds; in the table a 0 renders as a dash placeholder, a CSV line prints `0.000`. */
  datatype Summary = Summary(min: U64, max: U64, mean: U64, stddev: U64, p95: U64, p99: U64)

  /** The record handed to the table or the CSV writer. */
  datatype Row = Row(flush: Flush, stats: Summary)

  /** The statistics as `printMeasurements` computes them; `Max`, `Mean`, `StandardDeviation` and `Percentile` need a non-empty slice. */
  function Summarize(d: seq<U64>): (r: Summary)
    requires |d| > 0
    ensures Sorted(d) ==> r.min <= r.p95 <= r.p99 <= r.max && r.min in d && r.max in d
  {
    var r := Summary(Min(d), Max(d), Mean(d), StdDevOf(d), Percentile(d, 95), Percentile(d, 99));
    if Sorted(d) then
      PercentileMonotone(d, 95, 99);
      PercentileBetweenMinMax(d, 95);
      PercentileBetweenMinMax(d, 99);
      r
    else
      r
  }

  /**
   * The statistics of a flushed slice, total: an empty slice yields the
   * all-zero summary (dash placeholders in the table, `0.000` in CSV).  On
   * sorted data the order statistics are ordered.
   */
  function Report(d: seq<U64>): (r: Summary)
    ensures |d| == 0 ==> r == Summary(0, 0, 0, 0, 0, 0)
    ensures |d| > 0 && Sorted(d) ==> r.min <= r.p95 <= r.p99 <= r.max && r.min in d && r.max in d
  {
    if |d| == 0 then Summary(0, 0, 0, 0, 0, 0) else Summarize(d)
  }

  /** The statistics depend on the samples only, not on how the sort arranged them. */
  lemma ReportDependsOnSamplesOnly(d: seq<U64>, e: seq<U64>)
    requires Sorted(d) && Sorted(e) && multiset(d) == multiset(e)
    ensures Report(d) == Report(e)
  {
    SortedPermutationUnique(d, e);
  }

  /** On sorted samples whose sum does not wrap, the mean lies between the minimum and the maximum. */
  lemma ReportMeanBetween(d: seq<U64>)
    requires |d| > 0 && Sorted(d) && Total(d) < Modulus64
    ensures Report(d).min <= Report(d).mean <= Report(d).max
  {
    MeanBetweenMinMax(d);
  }

  /** A worked interval: five sorted samples and the row they produce. */
  lemma FiveSampleReport()
    ensures Report([10, 20, 30, 40, 100]) == Summary(10, 100, 40, 31, 100, 100)
  {
    var d: seq<U64> := [10, 20, 30, 40, 100];
    FiveSampleSums();
    assert Mean(d) == 40;
    StdDevExact(d);
    IsqrtOfThousand();
  }

  /** The exact sum and the sum of squared deviations from 40 of the worked interval. */
  lemma FiveSampleSums()
    ensures Total([10, 20, 30, 40, 100]) == 200
    ensures SquaredDeviations([10, 20, 30, 40, 100], 40) == 5000
  {
    var d: seq<U64> := [10, 20, 30, 40, 100];
    var d1, d2, d3, d4: seq<U64> := [10], [10, 20], [10, 20, 30], [10, 20, 30, 40];
    assert d1[..0] == [] && d2[..1] == d1 && d3[..2] == d2 && d4[..3] == d3 && d[..4] == d4;
    assert Total(d4) == 100;
    assert SquaredDeviations(d4, 40) == 1400;
  }

  lemma IsqrtOfThousand()
    ensures Isqrt(1000) == 31
  {
    var r := Isqrt(1000);
    if r < 31 {
      SquareMonotone(r + 1, 31);
    } else if r > 31 {
      SquareMonotone(32, r);
    }
  }

  /**
   * `printMeasurements`: sorts `measurements[:n]` in place, then computes the
   * statistics of the sorted slice.  The table or CSV rendering is left out.
   */
  method PrintMeasurements(a: array<U64>, n: nat) returns (stats: Summary)
    requires n <= a.Length
    modifies a
    ensures Sorted(a[..n]) && multiset(a[..n]) == multiset(old(a[..n])) && a[n..] == old(a[n..])
    ensures stats == Report(a[..n])
  {
    Sort(a, n);
    var d := a[..n];
    if n == 0 {
      return Summary(0, 0, 0, 0, 0, 0);
    }
    var sdv := StandardDeviation(d);
    stats := Summary(Min(d), Max(d), Mean(d), sdv, Percentile(d, 95), Percentile(d, 99));
  }

  /**
   * The array after a boundary tick: `dur` stored at `p`, the first `p` samples
   * sorted and still the same multiset, everything after `p` untouched.
   */
  ghost predicate SortedBefore(after: seq<U64>, before: seq<U64>, p: nat, dur: U64) {
    p < |after| == |before| &&
    Sorted(after[..p]) && multiset(after[..p]) == multiset(before[..p]) &&
    after[p] == dur && after[p + 1..] == before[p + 1..]
  }

  /** `measurements[pointer] = dur` followed by `printMeasurements(measurements[:pointer])`. */
  method StoreAndPrint(a: array<U64>, p: nat, dur: U64) returns (stats: Summary)
    requires p < a.Length
    modifies a
    ensures SortedBefore(a[..], old(a[..]), p, dur)
    ensures stats == Report(a[..p])
  {
    ghost var before := a[..];
    a[p] := dur;
    ghost var written := a[..];
    assert written[..p] == before[..p];
    stats := PrintMeasurements(a, p);
    assert a[..] == a[..p] + a[p..];
    assert a[p..] == written[p..];
    assert a[p] == a[p..][0];
    assert a[p + 1..] == a[p..][1..];
  }

  /** Storing `dur` at `p` extends the first `p` samples by it. */
  lemma KeptAfterStore(after: seq<U64>, before: seq<U64>, p: nat, dur: U64)
    requires p < |before| && after == before[p := dur]
    ensures after[..p + 1] == before[..p] + [dur]
  {
  }

  /** After a boundary tick, the row's statistics are those of the kept samples in ascending order. */
  lemma ReportOfKept(after: seq<U64>, before: seq<U64>, p: nat, dur: U64)
    requires SortedBefore(after, before, p, dur)
    ensures Report(after[..p]) == Report(SortedSamples(before[..p]))
  {
    SortedPermutationUnique(after[..p], SortedSamples(before[..p]));
  }

  // ---------------------------------------------------------------------------
  // measureLatency

  /** The state of `measureLatency`: the sample array and its counters. */
  class Sampler {
    const cfg: Config
    const measurements: array<U64>
    var pointer: nat
    var errors: nat
    var count: nat
    var last: int
    ghost var clock: int

    ghost function Snapshot(): Counters
      reads this
    {
      Counters(pointer, errors, count, last, clock)
    }

    ghost predicate Valid()
      reads this
    {
      ValidConfig(cfg) && measurements.Length == BufferSize(cfg) && Inv(cfg, Snapshot()) &&
      pointer < measurements.Length
    }

    /** The samples kept since the last boundary, `measurements[:pointer]`. */
    ghost function Kept(): seq<U64>
      requires pointer <= measurements.Length
      reads this, measurements
    {
      measurements[..pointer]
    }

    /** The set-up before the loop: the array from `createMeasurementsSlice` and `last` from `alignTime`. */
    constructor (cfg: Config, aligned: int)
      requires ValidConfig(cfg)
      ensures Valid() && this.cfg == cfg && fresh(measurements)
      ensures Snapshot() == Counters(0, 0, 0, aligned, aligned)
    {
      this.cfg := cfg;
      measurements := new U64[BufferSize(cfg)];
      pointer, errors, count, last := 0, 0, 0, aligned;
      clock := aligned;
    }

    /**
     * The part of one iteration after the probe: store the elapsed time at
     * `pointer`, add the probe result to `errors`, and at a boundary sort and
     * summarise `measurements[:pointer]` (without the sample just stored) and
     * reset; otherwise advance `pointer`.
     */
    method Tick(start: int, failed: nat, dur: U64, now: int) returns (row: Option<Row>)
      requires Valid() && OnSchedule(cfg, Snapshot(), start, now)
      modifies this, measurements
      ensures Valid()
      ensures Snapshot() == Advance(cfg, old(Snapshot()), start, failed, now).0
      ensures row.Some? == Advance(cfg, old(Snapshot()), start, failed, now).1.Some?
      ensures row.Some? ==> row.value.flush == Advance(cfg, old(Snapshot()), start, failed, now).1.value
      ensures row.Some? ==> row.value.flush.samples == old(pointer) < measurements.Length
      ensures row.Some? ==>
        SortedBefore(measurements[..], old(measurements[..]), old(pointer), dur) &&
        row.value.stats == Report(measurements[..old(pointer)])
      ensures row.None? ==> measurements[..] == old(measurements[..])[old(pointer) := dur]
    {
      ghost var before := Snapshot();
      ghost var next := Advance(cfg, before, start, failed, now);
      InvBoundsPointer(cfg, before);
      AdvanceKeepsInv(cfg, before, start, failed, now);
      var p := pointer;
      if now - last >= IntervalMicros(cfg) {
        var stats := StoreAndPrint(measurements, p, dur);
        var separator := false;
        if cfg.pretty {
          count := count + 1;
          if count == 10 {
            separator := true;
            count := 0;
          }
        }
        row := Some(Row(Flush(p, errors + failed, separator), stats));
        pointer, errors, last, clock := 0, 0, start, now;
      } else {
        measurements[p] := dur;
        pointer, errors, clock := pointer + 1, errors + failed, now;
        row := None;
        InvBoundsPointer(cfg, next.0);
      }
      assert Snapshot() == next.0;
    }
  }

  /** One iteration's inputs: the probe's start time, the network outcomes, the measured duration and the clock at the boundary check. */
  datatype TickInput = TickInput(start: int, net: Network, dur: U64, now: int)

  predicate InputsScheduled(cfg: Config, clock: int, ticks: seq<TickInput>)
    decreases |ticks|
  {
    ticks == [] ||
    (ticks[0].start >= clock + SleepMicros(cfg) && ticks[0].now >= ticks[0].start &&
     InputsScheduled(cfg, ticks[0].now, ticks[1..]))
  }

  /** The network outcomes of a list of iterations. */
  function NetsOf(ticks: seq<TickInput>): seq<Network> {
    seq(|ticks|, i requires 0 <= i < |ticks| => ticks[i].net)
  }

  /** The timings of a list of iterations, given each probe's 0/1 result. */
  function TimingsOf(ticks: seq<TickInput>, results: seq<nat>): seq<Timing>
    requires |results| == |ticks|
  {
    seq(|ticks|, i requires 0 <= i < |ticks| => Timing(ticks[i].start, results[i], ticks[i].now))
  }

  /** What the emitted rows handed to `printMeasurements`. */
  function FlushesOf(rows: seq<Row>): seq<Flush> {
    seq(|rows|, i requires 0 <= i < |rows| => rows[i].flush)
  }

  lemma NetsOfSnoc(ticks: seq<TickInput>, i: nat)
    requires i < |ticks|
    ensures NetsOf(ticks[..i + 1]) == NetsOf(ticks[..i]) + [ticks[i].net]
  {
  }

  lemma TimingsOfSnoc(ticks: seq<TickInput>, i: nat, results: seq<nat>, failed: nat)
    requires i < |ticks| && |results| == i
    ensures TimingsOf(ticks[..i + 1], results + [failed]) ==
      TimingsOf(ticks[..i], results) + [Timing(ticks[i].start, failed, ticks[i].now)]
  {
  }

  /** The statistics the emitted rows carry. */
  function StatsOf(rows: seq<Row>): seq<Summary> {
    seq(|rows|, i requires 0 <= i < |rows| => rows[i].stats)
  }

  /** What `printMeasurements` reports for each interval: the statistics of its samples in ascending order. */
  function Reports(intervals: seq<seq<U64>>): seq<Summary> {
    seq(|intervals|, i requires 0 <= i < |intervals| => Report(SortedSamples(intervals[i])))
  }

  lemma StatsOfSnoc(rows: seq<Row>, row: Row)
    ensures StatsOf(rows + [row]) == StatsOf(rows) + [row.stats]
  {
  }

  lemma ReportsSnoc(intervals: seq<seq<U64>>, d: seq<U64>)
    ensures Reports(intervals + [d]) == Reports(intervals) + [Report(SortedSamples(d))]
  {
  }

  lemma FlushesOfSnoc(rows: seq<Row>, row: Row)
    ensures FlushesOf(rows + [row]) == FlushesOf(rows) + [row.flush]
  {
  }

  /**
   * Which samples each boundary reports, stated on the samples themselves: an
   * iteration before the boundary keeps its duration; a boundary reports the
   * durations kept since the previous one and keeps none, not even its own.
   * The result is `last`, the durations still kept, and the reported
   * intervals in order.
   */
  function IntervalRun(cfg: Config, last: int, kept: seq<U64>, ticks: seq<TickInput>): (r: (int, seq<U64>, seq<seq<U64>>))
    ensures |r.2| <= |ticks|
    decreases |ticks|
  {
    if ticks == [] then (last, kept, [])
    else if ticks[0].now - last >= IntervalMicros(cfg) then
      var r := IntervalRun(cfg, ticks[0].start, [], ticks[1..]);
      (r.0, r.1, [kept] + r.2)
    else
      IntervalRun(cfg, last, kept + [ticks[0].dur], ticks[1..])
  }

  /** Extending a run by one iteration: it reports or keeps according to the `last` the run left. */
  lemma {:induction false} IntervalRunSnoc(cfg: Config, last: int, kept: seq<U64>, ticks: seq<TickInput>, t: TickInput)
    ensures var r := IntervalRun(cfg, last, kept, ticks);
      IntervalRun(cfg, last, kept, ticks + [t]) ==
        if t.now - r.0 >= IntervalMicros(cfg) then (t.start, [], r.2 + [r.1]) else (r.0, r.1 + [t.dur], r.2)
    decreases |ticks|
  {
    if ticks == [] {
      assert ticks + [t] == [t] && [t][1..] == [];
      assert [kept] + [] == [] + [kept];
    } else {
      var t0 := ticks[0];
      assert (ticks + [t])[0] == t0;
      assert (ticks + [t])[1..] == ticks[1..] + [t];
      if t0.now - last >= IntervalMicros(cfg) {
        IntervalRunSnoc(cfg, t0.start, [], ticks[1..], t);
        var r1 := IntervalRun(cfg, t0.start, [], ticks[1..]);
        assert [kept] + (r1.2 + [r1.1]) == ([kept] + r1.2) + [r1.1];
      } else {
        IntervalRunSnoc(cfg, last, kept + [t0.dur], ticks[1..], t);
      }
    }
  }

  /**
   * The sample-level intervals agree with the counters: with `pointer`
   * samples kept at the start, each reported interval holds as many samples as
   * its flush hands to `printMeasurements`, and the kept samples and `last`
   * end where the counters do.
   */
  lemma {:induction false} IntervalsMatchFlushes(cfg: Config, c: Counters, kept: seq<U64>, ticks: seq<TickInput>, results: seq<nat>)
    requires |kept| == c.pointer && |results| == |ticks|
    ensures var ir := IntervalRun(cfg, c.last, kept, ticks);
      var ar := AdvanceRun(cfg, c, TimingsOf(ticks, results));
      ir.0 == ar.0.last && |ir.1| == ar.0.pointer && |ir.2| == |ar.1| &&
      forall k :: 0 <= k < |ir.2| ==> |ir.2[k]| == ar.1[k].samples
    decreases |ticks|
  {
    if ticks != [] {
      var t := ticks[0];
      var tm := TimingsOf(ticks, results);
      assert tm[0] == Timing(t.start, results[0], t.now);
      assert tm[1..] == TimingsOf(ticks[1..], results[1..]);
      var (c1, f) := Advance(cfg, c, t.start, results[0], t.now);
      var kept1 := if f.Some? then [] else kept + [t.dur];
      IntervalsMatchFlushes(cfg, c1, kept1, ticks[1..], results[1..]);
      var (c2, fs) := AdvanceRun(cfg, c1, tm[1..]);
      assert AdvanceRun(cfg, c, tm) == (c2, (if f.Some? then [f.value] else []) + fs);
      if f.Some? {
        var r1 := IntervalRun(cfg, t.start, [], ticks[1..]);
        assert IntervalRun(cfg, c.last, kept, ticks) == (r1.0, r1.1, [kept] + r1.2);
        assert forall k :: 0 < k <= |r1.2| ==> ([kept] + r1.2)[k] == r1.2[k - 1] && ([f.value] + fs)[k] == fs[k - 1];
      } else {
        assert [] + fs == fs;
      }
    }
  }

  /** Extending a run by one iteration: it starts from the counters the run left. */
  lemma {:induction false} AdvanceRunSnoc(cfg: Config, c: Counters, ticks: seq<Timing>, t: Timing)
    ensures var r := AdvanceRun(cfg, c, ticks);
      var (c', f) := Advance(cfg, r.0, t.start, t.failed, t.now);
      AdvanceRun(cfg, c, ticks + [t]) == (c', r.1 + (if f.Some? then [f.value] else []))
    decreases |ticks|
  {
    if ticks == [] {
      var (c', f) := Advance(cfg, c, t.start, t.failed, t.now);
      assert ticks + [t] == [t] && [t][1..] == [];
      assert AdvanceRun(cfg, c, [t]) == (c', (if f.Some? then [f.value] else []) + []);
      assert [] + (if f.Some? then [f.value] else []) == (if f.Some? then [f.value] else []) + [];
    } else {
      assert (ticks + [t])[0] == ticks[0];
      assert (ticks + [t])[1..] == ticks[1..] + [t];
      var (c1, f1) := Advance(cfg, c, ticks[0].start, ticks[0].failed, ticks[0].now);
      AdvanceRunSnoc(cfg, c1, ticks[1..], t);
      var head := if f1.Some? then [f1.value] else [];
      var r1 := AdvanceRun(cfg, c1, ticks[1..]);
      var r2 := AdvanceRun(cfg, c1, ticks[1..] + [t]);
      assert AdvanceRun(cfg, c, ticks) == (r1.0, head + r1.1);
      assert AdvanceRun(cfg, c, ticks + [t]) == (r2.0, head + r2.1);
      var (c', f) := Advance(cfg, r1.0, t.start, t.failed, t.now);
      var tail := if f.Some? then [f.value] else [];
      assert head + (r1.1 + tail) == (head + r1.1) + tail;
    }
  }

  /**
   * One pass of `measureLatency`'s loop body: the probe of the configured
   * mode, then `Tick` with the probe's result.
   */
  method Iteration(sampler: Sampler, prober: Prober, t: TickInput) returns (failed: nat, row: Option<Row>)
    requires sampler.Valid() && OnSchedule(sampler.cfg, sampler.Snapshot(), t.start, t.now)
    modifies sampler, sampler.measurements, prober
    ensures sampler.Valid()
    ensures (prober.State(), failed) == ProbeStep(prober.settings, sampler.cfg.connectMode, old(prober.State()), t.net)
    ensures var (c, f) := Advance(sampler.cfg, old(sampler.Snapshot()), t.start, failed, t.now);
      sampler.Snapshot() == c && row.Some? == f.Some? && (row.Some? ==> row.value.flush == f.value)
    ensures row.Some? ==>
      SortedBefore(sampler.measurements[..], old(sampler.measurements[..]), old(sampler.pointer), t.dur) &&
      row.value.stats == Report(SortedSamples(old(sampler.Kept())))
    ensures row.None? ==> sampler.measurements[..] == old(sampler.measurements[..])[old(sampler.pointer) := t.dur]
    ensures sampler.Kept() == if row.Some? then [] else old(sampler.Kept()) + [t.dur]
  {
    if sampler.cfg.connectMode {
      failed := prober.MakeConnection(t.net);
    } else {
      failed := prober.ExecCommand(t.net);
    }
    ghost var before, kept := sampler.measurements[..], sampler.Kept();
    row := sampler.Tick(t.start, failed, t.dur, t.now);
    if row.Some? {
      ReportOfKept(sampler.measurements[..], before, old(sampler.pointer), t.dur);
      assert before[..old(sampler.pointer)] == kept;
    } else {
      KeptAfterStore(sampler.measurements[..], before, old(sampler.pointer), t.dur);
    }
  }

  /**
   * `measureLatency`'s endless loop, run over a finite list of iterations.
   * The probes follow `ProbeRun`, the counters and the emitted rows follow
   * `AdvanceRun` over the resulting timings, so the run conserves samples and
   * failures as `Conservation` states.
   */
  method MeasureLatency(sampler: Sampler, prober: Prober, ticks: seq<TickInput>) returns (rows: seq<Row>)
    requires sampler.Valid() && InputsScheduled(sampler.cfg, sampler.clock, ticks)
    modifies sampler, sampler.measurements, prober
    ensures sampler.Valid()
    ensures |rows| <= |ticks|
    ensures forall i :: 0 <= i < |rows| ==> rows[i].flush.samples < sampler.measurements.Length
    ensures var pr := ProbeRun(prober.settings, sampler.cfg.connectMode, old(prober.State()), NetsOf(ticks));
      var ar := AdvanceRun(sampler.cfg, old(sampler.Snapshot()), TimingsOf(ticks, pr.1));
      prober.State() == pr.0 && sampler.Snapshot() == ar.0 && FlushesOf(rows) == ar.1
    ensures var pr := ProbeRun(prober.settings, sampler.cfg.connectMode, old(prober.State()), NetsOf(ticks));
      FlushedSamples(FlushesOf(rows)) + |rows| + sampler.pointer == old(sampler.pointer) + |ticks| &&
      FlushedErrors(FlushesOf(rows)) + sampler.errors == old(sampler.errors) + Failures(TimingsOf(ticks, pr.1))
    ensures var ir := IntervalRun(sampler.cfg, old(sampler.last), old(sampler.Kept()), ticks);
      sampler.Kept() == ir.1 && StatsOf(rows) == Reports(ir.2)
  {
    ghost var settings, mode, cfg := prober.settings, sampler.cfg.connectMode, sampler.cfg;
    ghost var s0, c0 := prober.State(), sampler.Snapshot();
    ghost var l0, k0 := sampler.last, sampler.Kept();
    ghost var results: seq<nat> := [];
    ghost var timings: seq<Timing> := [];
    rows := [];
    assert FlushesOf(rows) == [] && ticks[..0] == [] && NetsOf([]) == [];
    var i := 0;
    while i < |ticks|
      invariant 0 <= i <= |ticks| && |rows| <= i
      invariant sampler.Valid() && InputsScheduled(cfg, sampler.clock, ticks[i..])
      invariant forall j :: 0 <= j < |rows| ==> rows[j].flush.samples < sampler.measurements.Length
      invariant Tracked(settings, mode, cfg, s0, c0, ticks, i, results, timings, prober.State(), sampler.Snapshot(), FlushesOf(rows))
      invariant Sampled(cfg, l0, k0, ticks, i, sampler.last, sampler.Kept(), rows)
    {
      var t := ticks[i];
      assert ticks[i..][1..] == ticks[i + 1..];
      var failed;
      failed, rows := TrackedIteration(sampler, prober, t, rows, settings, mode, cfg, s0, c0, ticks, i, results, timings, l0, k0);
      results := results + [failed];
      timings := timings + [Timing(t.start, failed, t.now)];
      i := i + 1;
    }
    TrackedRun(settings, mode, cfg, s0, c0, ticks, results, timings, prober.State(), sampler.Snapshot(), FlushesOf(rows));
    SampledRun(cfg, l0, k0, ticks, sampler.last, sampler.Kept(), rows);
  }

  /** `Iteration`, appending its row to `rows`, with the bookkeeping carried one step forward. */
  method TrackedIteration(sampler: Sampler, prober: Prober, t: TickInput, rows: seq<Row>,
                          ghost settings: Settings, ghost mode: bool, ghost cfg: Config, ghost s0: ProbeState, ghost c0: Counters,
                          ghost ticks: seq<TickInput>, ghost i: nat, ghost results: seq<nat>, ghost timings: seq<Timing>,
                          ghost l0: int, ghost k0: seq<U64>)
      returns (failed: nat, rows': seq<Row>)
    requires i < |ticks| && t == ticks[i]
    requires settings == prober.settings && mode == sampler.cfg.connectMode && cfg == sampler.cfg
    requires sampler.Valid() && OnSchedule(cfg, sampler.Snapshot(), t.start, t.now)
    requires Tracked(settings, mode, cfg, s0, c0, ticks, i, results, timings, prober.State(), sampler.Snapshot(), FlushesOf(rows))
    requires Sampled(cfg, l0, k0, ticks, i, sampler.last, sampler.Kept(), rows)
    modifies sampler, sampler.measurements, prober
    ensures sampler.Valid() && sampler.clock == t.now
    ensures |rows| <= |rows'| <= |rows| + 1 && rows'[..|rows|] == rows
    ensures |rows'| == |rows| + 1 ==> rows'[|rows|].flush.samples < sampler.measurements.Length
    ensures Tracked(settings, mode, cfg, s0, c0, ticks, i + 1, results + [failed], timings + [Timing(t.start, failed, t.now)],
                    prober.State(), sampler.Snapshot(), FlushesOf(rows'))
    ensures Sampled(cfg, l0, k0, ticks, i + 1, sampler.last, sampler.Kept(), rows')
  {
    ghost var ps, snap, kept := prober.State(), sampler.Snapshot(), sampler.Kept();
    var row;
    failed, row := Iteration(sampler, prober, t);
    TrackedStep(settings, mode, cfg, s0, c0, ticks, i, results, timings, ps, snap, FlushesOf(rows), failed);
    SampledStep(cfg, l0, k0, ticks, i, snap.last, kept, rows, row);
    if row.Some? {
      FlushesOfSnoc(rows, row.value);
      rows' := rows + [row.value];
    } else {
      rows' := rows;
      assert FlushesOf(rows) + [] == FlushesOf(rows);
    }
  }

  /** The bookkeeping of `MeasureLatency` after `i` iterations: the probes and the counters follow their run functions. */
  ghost predicate Tracked(settings: Settings, mode: bool, cfg: Config, s0: ProbeState, c0: Counters,
                          ticks: seq<TickInput>, i: nat, results: seq<nat>, timings: seq<Timing>,
                          ps: ProbeState, snap: Counters, flushes: seq<Flush>)
  {
    i <= |ticks| && |results| == i &&
    (ps, results) == ProbeRun(settings, mode, s0, NetsOf(ticks[..i])) &&
    timings == TimingsOf(ticks[..i], results) &&
    (snap, flushes) == AdvanceRun(cfg, c0, timings)
  }

  /** The rows of `MeasureLatency` after `i` iterations report the sorted samples of `IntervalRun`'s intervals. */
  ghost predicate Sampled(cfg: Config, l0: int, k0: seq<U64>, ticks: seq<TickInput>, i: nat,
                          last: int, kept: seq<U64>, rows: seq<Row>)
  {
    i <= |ticks| &&
    var ir := IntervalRun(cfg, l0, k0, ticks[..i]);
    ir.0 == last && ir.1 == kept && StatsOf(rows) == Reports(ir.2)
  }

  /** One more iteration keeps the row bookkeeping. */
  lemma SampledStep(cfg: Config, l0: int, k0: seq<U64>, ticks: seq<TickInput>, i: nat,
                    last: int, kept: seq<U64>, rows: seq<Row>, row: Option<Row>)
    requires i < |ticks| && Sampled(cfg, l0, k0, ticks, i, last, kept, rows)
    requires row.Some? <==> ticks[i].now - last >= IntervalMicros(cfg)
    requires row.Some? ==> row.value.stats == Report(SortedSamples(kept))
    ensures Sampled(cfg, l0, k0, ticks, i + 1,
                    if row.Some? then ticks[i].start else last,
                    if row.Some? then [] else kept + [ticks[i].dur],
                    if row.Some? then rows + [row.value] else rows)
  {
    assert ticks[..i + 1] == ticks[..i] + [ticks[i]];
    IntervalRunSnoc(cfg, l0, k0, ticks[..i], ticks[i]);
    if row.Some? {
      StatsOfSnoc(rows, row.value);
      ReportsSnoc(IntervalRun(cfg, l0, k0, ticks[..i]).2, kept);
    }
  }

  /** After the whole list, the rows report the intervals of the whole run. */
  lemma SampledRun(cfg: Config, l0: int, k0: seq<U64>, ticks: seq<TickInput>, last: int, kept: seq<U64>, rows: seq<Row>)
    requires Sampled(cfg, l0, k0, ticks, |ticks|, last, kept, rows)
    ensures var ir := IntervalRun(cfg, l0, k0, ticks);
      kept == ir.1 && StatsOf(rows) == Reports(ir.2)
  {
    assert ticks[..|ticks|] == ticks;
  }

  /** After the whole list, the bookkeeping gives the run functions' results and their conservation laws. */
  lemma TrackedRun(settings: Settings, mode: bool, cfg: Config, s0: ProbeState, c0: Counters,
                   ticks: seq<TickInput>, results: seq<nat>, timings: seq<Timing>,
                   ps: ProbeState, snap: Counters, flushes: seq<Flush>)
    requires Tracked(settings, mode, cfg, s0, c0, ticks, |ticks|, results, timings, ps, snap, flushes)
    ensures var pr := ProbeRun(settings, mode, s0, NetsOf(ticks));
      var ar := AdvanceRun(cfg, c0, TimingsOf(ticks, pr.1));
      ps == pr.0 && snap == ar.0 && flushes == ar.1 &&
      FlushedSamples(flushes) + |flushes| + snap.pointer == c0.pointer + |ticks| &&
      FlushedErrors(flushes) + snap.errors == c0.errors + Failures(TimingsOf(ticks, pr.1))
  {
    assert ticks[..|ticks|] == ticks;
    Conservation(cfg, c0, timings);
  }

  /** One more iteration keeps the bookkeeping. */
  lemma TrackedStep(settings: Settings, mode: bool, cfg: Config, s0: ProbeState, c0: Counters,
                    ticks: seq<TickInput>, i: nat, results: seq<nat>, timings: seq<Timing>,
                    ps: ProbeState, snap: Counters, flushes: seq<Flush>, failed: nat)
    requires i < |ticks| && Tracked(settings, mode, cfg, s0, c0, ticks, i, results, timings, ps, snap, flushes)
    requires ProbeStep(settings, mode, ps, ticks[i].net).1 == failed
    ensures var t := ticks[i];
      var (c, f) := Advance(cfg, snap, t.start, failed, t.now);
      Tracked(settings, mode, cfg, s0, c0, ticks, i + 1, results + [failed], timings + [Timing(t.start, failed, t.now)],
              ProbeStep(settings, mode, ps, t.net).0, c, flushes + (if f.Some? then [f.value] else []))
  {
    var t := ticks[i];
    ProbeRunSnoc(settings, mode, s0, NetsOf(ticks[..i]), t.net);
    NetsOfSnoc(ticks, i);
    AdvanceRunSnoc(cfg, c0, timings, Timing(t.start, failed, t.now));
    TimingsOfSnoc(ticks, i, results, failed);
  }
}
