/**
 * Integer latency statistics over microsecond samples (`stats.Data`, a slice of
 * uint64 values).  Samples are modelled as the subset type `U64`; the source's
 * wrapping `uint64` and `int64` arithmetic is written out explicitly.
 */
module Stats {

  const Modulus64: int := 0x1_0000_0000_0000_0000
  const Int64Limit: int := 0x8000_0000_0000_0000

  type U64 = x: int | 0 <= x < 0x1_0000_0000_0000_0000

  /** Ascending order, the order `sort.Sort` leaves a `Data` slice in. */
  predicate Sorted(d: seq<U64>) {
    forall i, j :: 0 <= i < j < |d| ==> d[i] <= d[j]
  }

  /** The exact (unbounded) sum of the samples. */
  function Total(d: seq<U64>): nat {
    if d == [] then 0 else Total(d[..|d| - 1]) + d[|d| - 1]
  }

  // ---------------------------------------------------------------------------
  // Len / Less / Swap and Sort

  /** `Data.Less`: the order used by `sort.Sort`. */
  predicate Less(a: array<U64>, i: int, j: int)
    requires 0 <= i < a.Length && 0 <= j < a.Length
    reads a
  {
    a[i] < a[j]
  }

  /** `Data.Swap`: exchanges two cells and touches no other. */
  method Swap(a: array<U64>, i: int, j: int)
    requires 0 <= i < a.Length && 0 <= j < a.Length
    modifies a
    ensures a[i] == old(a[j]) && a[j] == old(a[i])
    ensures forall k :: 0 <= k < a.Length && k != i && k != j ==> a[k] == old(a[k])
    ensures multiset(a[..]) == old(multiset(a[..]))
  {
    a[i], a[j] := a[j], a[i];
  }

  /**
   * `Data.Sort` on the slice `a[0:n]` (a Go slice is a window on its backing
   * array): the slice becomes a sorted permutation of itself and the cells
   * beyond it are untouched.  An empty slice returns at once.  The model sorts
   * by insertion through `Less` and `Swap`.
   */
  method Sort(a: array<U64>, n: nat)
    requires n <= a.Length
    modifies a
    ensures Sorted(a[..n])
    ensures multiset(a[..n]) == multiset(old(a[..n]))
    ensures a[n..] == old(a[n..])
  {
    if n == 0 {
      return;
    }
    var i := 1;
    while i < n
      invariant 1 <= i <= n
      invariant forall k, l :: 0 <= k < l < i ==> a[k] <= a[l]
      invariant multiset(a[..]) == old(multiset(a[..]))
      invariant a[n..] == old(a[n..])
    {
      var j := i;
      while j > 0 && Less(a, j, j - 1)
        invariant 0 <= j <= i
        invariant forall k, l :: 0 <= k < l <= i && k != j && l != j ==> a[k] <= a[l]
        invariant forall k, l :: 0 <= k < j < l <= i ==> a[k] <= a[l]
        invariant forall l :: j < l <= i ==> a[j] <= a[l]
        invariant multiset(a[..]) == old(multiset(a[..]))
        invariant a[n..] == old(a[n..])
      {
        Swap(a, j - 1, j);
        j := j - 1;
      }
      i := i + 1;
    }
    PrefixMultiset(a[..], old(a[..]), n);
  }

  /** Equal multisets and equal suffixes give equal prefix multisets. */
  lemma PrefixMultiset(s: seq<U64>, t: seq<U64>, n: nat)
    requires n <= |s| == |t|
    requires multiset(s) == multiset(t) && s[n..] == t[n..]
    ensures multiset(s[..n]) == multiset(t[..n])
  {
    assert s == s[..n] + s[n..];
    assert t == t[..n] + t[n..];
    var tail := multiset(s[n..]);
    calc {
      multiset(s[..n]);
      (multiset(s[..n]) + tail) - tail;
      multiset(s) - tail;
      multiset(t) - tail;
      (multiset(t[..n]) + tail) - tail;
      multiset(t[..n]);
    }
  }

  /** Removing the last element removes one occurrence of it from the multiset. */
  lemma DropLast(s: seq<U64>)
    requires |s| > 0
    ensures multiset(s[..|s| - 1]) == multiset(s) - multiset{s[|s| - 1]}
  {
    var x := s[|s| - 1];
    assert s == s[..|s| - 1] + [x];
    calc {
      multiset(s[..|s| - 1]);
      (multiset(s[..|s| - 1]) + multiset{x}) - multiset{x};
      multiset(s) - multiset{x};
    }
  }

  /** Dropping the last element keeps a sequence sorted. */
  lemma SortedDropLast(s: seq<U64>)
    requires Sorted(s) && |s| > 0
    ensures Sorted(s[..|s| - 1])
  {
  }

  /** Every element of a sorted sequence is at most its last one. */
  lemma AtMostLast(s: seq<U64>, x: U64)
    requires Sorted(s) && x in multiset(s)
    ensures x <= s[|s| - 1]
  {
    var i :| 0 <= i < |s| && s[i] == x;
  }

  /**
   * A sorted permutation is unique, so whatever algorithm `sort.Sort` uses, the
   * statistics computed after it depend on the samples only.
   */
  lemma {:induction false} SortedPermutationUnique(s: seq<U64>, t: seq<U64>)
    requires Sorted(s) && Sorted(t) && multiset(s) == multiset(t)
    ensures s == t
    decreases |s|
  {
    assert |t| == |multiset(t)| == |multiset(s)| == |s|;
    if s != [] {
      var n := |s|;
      SameLast(s, t);
      DropLast(s);
      DropLast(t);
      SortedDropLast(s);
      SortedDropLast(t);
      SortedPermutationUnique(s[..n - 1], t[..n - 1]);
      assert s == s[..n - 1] + [s[n - 1]];
      assert t == t[..n - 1] + [t[n - 1]];
    }
  }

  /** Two sorted permutations of each other end in the same element. */
  lemma SameLast(s: seq<U64>, t: seq<U64>)
    requires Sorted(s) && Sorted(t) && multiset(s) == multiset(t)
    requires |s| == |t| > 0
    ensures s[|s| - 1] == t[|t| - 1]
  {
    var x, y := s[|s| - 1], t[|t| - 1];
    assert x in multiset(s) && y in multiset(t);
    AtMostLast(t, x);
    AtMostLast(s, y);
  }

  /** `x` placed into the sorted `s` before its first larger element. */
  function Insert(x: U64, s: seq<U64>): (r: seq<U64>)
    requires Sorted(s)
    ensures Sorted(r) && multiset(r) == multiset(s) + multiset{x}
    decreases |s|
  {
    if s == [] || x <= s[0] then [x] + s
    else
      var rest := Insert(x, s[1..]);
      assert s == [s[0]] + s[1..];
      LowerBound(s[0], rest, s[1..], x);
      SortedCons(s[0], rest);
      assert multiset([s[0]] + rest) == multiset{s[0]} + multiset(rest);
      [s[0]] + rest
  }

  /** A head no larger than any element of a sorted tail makes a sorted sequence. */
  lemma SortedCons(h: U64, r: seq<U64>)
    requires Sorted(r) && forall i :: 0 <= i < |r| ==> h <= r[i]
    ensures Sorted([h] + r)
  {
  }

  /** A bound on every element of `s` and on `x` bounds every element of a permutation of `s` plus `x`. */
  lemma LowerBound(lo: U64, r: seq<U64>, s: seq<U64>, x: U64)
    requires lo <= x && (forall i :: 0 <= i < |s| ==> lo <= s[i])
    requires multiset(r) == multiset(s) + multiset{x}
    ensures forall i :: 0 <= i < |r| ==> lo <= r[i]
  {
    forall i | 0 <= i < |r|
      ensures lo <= r[i]
    {
      assert r[i] in multiset(s) + multiset{x};
    }
  }

  /**
   * The samples in ascending order, defined by insertion; by
   * `SortedPermutationUnique` it is what any sort leaves.
   */
  function SortedSamples(s: seq<U64>): (r: seq<U64>)
    ensures Sorted(r) && multiset(r) == multiset(s)
    decreases |s|
  {
    if s == [] then []
    else
      assert s == s[..|s| - 1] + [s[|s| - 1]];
      Insert(s[|s| - 1], SortedSamples(s[..|s| - 1]))
  }

  // ---------------------------------------------------------------------------
  // Sum, Min, Max, Mean

  /** `Data.Sum`: the sum of all samples, wrapping modulo 2^64 like `uint64`. */
  method Sum(d: seq<U64>) returns (s: U64)
    ensures s == Total(d) % Modulus64
  {
    if |d| == 0 {
      return 0;
    }
    s := 0;
    for i := 0 to |d|
      invariant s == Total(d[..i]) % Modulus64
    {
      assert d[..i + 1][..i] == d[..i];
      s := (s + d[i]) % Modulus64;
    }
    assert d[..|d|] == d;
  }

  /** `Min`: 0 for no samples, otherwise the first; on sorted data the least. */
  function Min(d: seq<U64>): (r: U64)
    ensures |d| == 0 ==> r == 0
    ensures |d| > 0 && Sorted(d) ==> r in d && forall i :: 0 <= i < |d| ==> r <= d[i]
  {
    if |d| == 0 then 0 else d[0]
  }

  /** `Max`: the last sample (the source indexes -1 on empty data); on sorted data the greatest. */
  function Max(d: seq<U64>): (r: U64)
    requires |d| > 0
    ensures r in d
    ensures Sorted(d) ==> forall i :: 0 <= i < |d| ==> d[i] <= r
  {
    d[|d| - 1]
  }

  /** `Mean`: the wrapped sum divided by the count, truncated (the source divides by zero on empty data). */
  function Mean(d: seq<U64>): U64
    requires |d| > 0
  {
    (Total(d) % Modulus64) / |d|
  }

  /** `Mean` is the truncated quotient of the wrapped sum: the largest `r` with `r * n <= sum`. */
  lemma MeanTruncates(d: seq<U64>)
    requires |d| > 0
    ensures Mean(d) * |d| <= Total(d) % Modulus64 < (Mean(d) + 1) * |d|
  {
  }

  /** Multiplying both sides by a natural number keeps an inequality. */
  lemma MulMonotone(a: int, b: int, c: nat)
    requires a <= b
    ensures a * c <= b * c
  {
  }

  /** Squaring keeps the order of natural numbers. */
  lemma SquareMonotone(a: nat, b: nat)
    requires a <= b
    ensures a * a <= b * b
  {
    MulMonotone(a, b, a);
    MulMonotone(a, b, b);
  }

  /** A strict inequality between multiples of a positive number holds between the factors. */
  lemma MulCancel(a: int, b: int, c: int)
    requires c > 0 && a * c < b * c
    ensures a < b
  {
  }

  /** Every sample between `lo` and `hi` bounds the exact sum by `n*lo` and `n*hi`. */
  lemma {:induction false} TotalBounds(d: seq<U64>, lo: int, hi: int)
    requires forall i :: 0 <= i < |d| ==> lo <= d[i] <= hi
    ensures lo * |d| <= Total(d) <= hi * |d|
  {
    if d != [] {
      var n := |d|;
      TotalBounds(d[..n - 1], lo, hi);
      assert lo * n == lo * (n - 1) + lo;
      assert hi * n == hi * (n - 1) + hi;
    }
  }

  /** A quotient lies between the bounds whose multiples bracket the dividend. */
  lemma DivBetween(x: int, n: int, lo: int, hi: int)
    requires n > 0 && lo * n <= x <= hi * n
    ensures lo <= x / n <= hi
  {
    var q := x / n;
    assert q * n <= x < (q + 1) * n;
    MulCancel(lo, q + 1, n);
    MulCancel(q, hi + 1, n);
  }

  /** When the sum does not wrap, `Mean` is the exact sum divided by the count. */
  lemma MeanOfSmallSum(d: seq<U64>)
    requires |d| > 0 && Total(d) < Modulus64
    ensures Mean(d) == Total(d) / |d|
  {
  }

  /** On sorted data whose sum does not wrap, `Min <= Mean <= Max`. */
  lemma MeanBetweenMinMax(d: seq<U64>)
    requires |d| > 0 && Sorted(d) && Total(d) < Modulus64
    ensures Min(d) <= Mean(d) <= Max(d)
  {
    var n := |d|;
    TotalBounds(d, d[0], d[n - 1]);
    MeanOfSmallSum(d);
    DivBetween(Total(d), n, d[0], d[n - 1]);
  }

  /** The exact sum of `n` copies of `v`. */
  lemma {:induction false} TotalConstant(v: U64, n: nat)
    ensures Total(seq(n, _ => v)) == v * n
  {
    if n > 0 {
      assert seq(n, _ => v)[..n - 1] == seq(n - 1, _ => v);
      TotalConstant(v, n - 1);
    }
  }

  /** The mean of a constant sequence is that constant, as long as the sum does not wrap. */
  lemma MeanConstant(v: U64, n: nat)
    requires n > 0 && v * n < Modulus64
    ensures Mean(seq(n, _ => v)) == v
  {
    var d := seq(n, _ => v);
    TotalConstant(v, n);
    MeanOfSmallSum(d);
    DivBetween(Total(d), n, v, v);
  }

  // ---------------------------------------------------------------------------
  // StandardDeviation

  /** Two's-complement reinterpretation as `int64`: the value congruent to `x` modulo 2^64 in the int64 range. */
  function Wrap64(x: int): (r: int)
    ensures -Int64Limit <= r < Int64Limit
    ensures (x - r) % Modulus64 == 0
    ensures -Int64Limit <= x < Int64Limit ==> r == x
  {
    var m := x % Modulus64;
    if m >= Int64Limit then m - Modulus64 else m
  }

  /** One term of the accumulator: `(int64(v) - int64(m)) * (int64(v) - int64(m))` with int64 wrap-around. */
  function SquaredDeviation(v: U64, m: U64): int {
    var dev := Wrap64(Wrap64(v) - Wrap64(m));
    Wrap64(dev * dev)
  }

  /** The int64 variance accumulator after the loop has visited every sample of `d`. */
  function VarianceAccumulator(d: seq<U64>, m: U64): int {
    if d == [] then 0
    else Wrap64(VarianceAccumulator(d[..|d| - 1], m) + SquaredDeviation(d[|d| - 1], m))
  }

  /** The square of an integer. */
  function Square(x: int): nat {
    x * x
  }

  /** The exact sum of squared deviations from `m`. */
  function SquaredDeviations(d: seq<U64>, m: int): nat {
    if d == [] then 0
    else SquaredDeviations(d[..|d| - 1], m) + Square(d[|d| - 1] - m)
  }

  /**
   * Go's integer division, which truncates toward zero: `a == q*b + rem` with
   * the remainder taking the sign of the dividend and smaller than `b` in size.
   */
  function TruncDiv(a: int, b: int): (q: int)
    requires b > 0
    ensures a >= 0 ==> 0 <= a - q * b < b
    ensures a < 0 ==> -b < a - q * b <= 0
  {
    if a >= 0 then a / b else -((-a) / b)
  }

  /** Floor square root: `uint64(math.Pow(vr, 0.5))` for a non-negative integer `vr`. */
  function Isqrt(x: nat): (r: nat)
    ensures r * r <= x < (r + 1) * (r + 1)
  {
    if x < 4 then (if x == 0 then 0 else 1)
    else
      var s := Isqrt(x / 4);
      var h := 2 * s;
      IsqrtStep(x, s);
      if (h + 1) * (h + 1) <= x then h + 1 else h
  }

  /** Doubling the root of `x / 4` brackets the root of `x`. */
  lemma IsqrtStep(x: nat, s: nat)
    requires s * s <= x / 4 < (s + 1) * (s + 1)
    ensures (2 * s) * (2 * s) <= x < (2 * s + 2) * (2 * s + 2)
  {
    assert (2 * s) * (2 * s) == 4 * (s * s);
    assert (2 * s + 2) * (2 * s + 2) == 4 * ((s + 1) * (s + 1));
    assert 4 * (x / 4) <= x < 4 * (x / 4) + 4;
  }

  /** `Isqrt` of a value below 2^63 fits in 32 bits. */
  lemma IsqrtSmall(x: nat)
    requires x < Int64Limit
    ensures Isqrt(x) < 0x1_0000_0000
  {
  }

  /**
   * The last two steps of `StandardDeviation`: the int64 variance divided by
   * the count (truncating), then `uint64(math.Pow(vr, 0.5))`, the floor square
   * root (0 for a quotient of 0).  A negative variance arises only from int64
   * overflow; the source then converts NaN to `uint64`, which is
   * platform-defined; the model returns 0.
   */
  function RootOfVariance(variance: int, n: nat): (r: U64)
    requires n > 0 && -Int64Limit <= variance < Int64Limit
    ensures variance < 0 ==> r == 0
  {
    var vr := TruncDiv(variance, n);
    if vr <= 0 then 0
    else
      IsqrtSmall(vr);
      Isqrt(vr)
  }

  /** Without overflow the result is the floor root of the quotient: `n` times its square is at most the variance, and `n` times the next square exceeds it. */
  lemma RootOfVarianceBracket(variance: int, n: nat)
    requires n > 0 && 0 <= variance < Int64Limit
    ensures var r := RootOfVariance(variance, n);
      r * r * n <= variance < (r + 1) * (r + 1) * n
  {
    var r := RootOfVariance(variance, n);
    assert TruncDiv(variance, n) == variance / n;
    if variance / n == 0 {
      assert r == 0;
    } else {
      assert r == Isqrt(variance / n);
    }
    RootBracket(variance, n, r);
  }

  /** The floor root of the floor quotient `v / n` brackets `v` between `n` times two consecutive squares. */
  lemma RootBracket(v: nat, n: nat, r: nat)
    requires n > 0 && r * r <= v / n < (r + 1) * (r + 1)
    ensures r * r * n <= v < (r + 1) * (r + 1) * n
  {
    var q := v / n;
    assert q * n <= v < (q + 1) * n;
    MulMonotone(r * r, q, n);
    MulMonotone(q + 1, (r + 1) * (r + 1), n);
  }

  /** The value `StandardDeviation` returns. */
  function StdDevOf(d: seq<U64>): U64
    requires |d| > 0
  {
    RootOfVariance(VarianceAccumulator(d, Mean(d)), |d|)
  }

  /** `StandardDeviation`: accumulates the squared deviations from the truncated mean in an int64 loop. */
  method StandardDeviation(d: seq<U64>) returns (r: U64)
    requires |d| > 0
    ensures r == StdDevOf(d)
  {
    var m := Mean(d);
    var variance := 0;
    for i := 0 to |d|
      invariant variance == VarianceAccumulator(d[..i], m)
    {
      assert d[..i + 1][..i] == d[..i];
      variance := Wrap64(variance + SquaredDeviation(d[i], m));
    }
    assert d[..|d|] == d;
    r := RootOfVariance(variance, |d|);
  }

  /** No int64 operation of the accumulator overflows when samples, mean and the exact sum stay below 2^63. */
  lemma {:induction false} AccumulatorExact(d: seq<U64>, m: U64)
    requires m < Int64Limit
    requires forall i :: 0 <= i < |d| ==> d[i] < Int64Limit
    requires SquaredDeviations(d, m) < Int64Limit
    ensures VarianceAccumulator(d, m) == SquaredDeviations(d, m)
  {
    if d != [] {
      var init, v := d[..|d| - 1], d[|d| - 1];
      var sq := Square(v - m);
      assert SquaredDeviations(d, m) == SquaredDeviations(init, m) + sq;
      AccumulatorExact(init, m);
      assert Wrap64(v) == v && Wrap64(m) == m;
      assert Wrap64(v - m) == v - m;
      assert Wrap64((v - m) * (v - m)) == sq;
      assert SquaredDeviation(v, m) == sq;
    }
  }

  /** The mean of samples below 2^63 is below 2^63. */
  lemma MeanSmall(d: seq<U64>)
    requires |d| > 0
    requires forall i :: 0 <= i < |d| ==> d[i] < Int64Limit
    ensures Mean(d) < Int64Limit
  {
    var n, x := |d|, Total(d) % Modulus64;
    var m := x / n;
    assert m * n <= x < Modulus64;
    if n == 1 {
      assert d[..0] == [];
      assert Total(d) == d[0];
    } else {
      MulMonotone(2, n, m);
      assert 2 * m <= m * n;
    }
  }

  /** The exact population variance about the truncated mean, truncated to an integer. */
  function ExactVariance(d: seq<U64>): nat
    requires |d| > 0
  {
    SquaredDeviations(d, Mean(d)) / |d|
  }

  /**
   * Without overflow, the variance is the exact mean of squared deviations from
   * the truncated mean (never negative), and the result is its floor square root.
   */
  lemma StdDevExact(d: seq<U64>)
    requires |d| > 0
    requires forall i :: 0 <= i < |d| ==> d[i] < Int64Limit
    requires SquaredDeviations(d, Mean(d)) < Int64Limit
    ensures VarianceAccumulator(d, Mean(d)) == SquaredDeviations(d, Mean(d)) >= 0
    ensures StdDevOf(d) == Isqrt(ExactVariance(d))
  {
    MeanSmall(d);
    AccumulatorExact(d, Mean(d));
  }

  /** Every squared deviation is zero when every sample equals `m`. */
  lemma {:induction false} AccumulatorConstant(d: seq<U64>, m: U64)
    requires forall i :: 0 <= i < |d| ==> d[i] == m
    ensures VarianceAccumulator(d, m) == 0
  {
    if d != [] {
      AccumulatorConstant(d[..|d| - 1], m);
    }
  }

  /** A constant sequence whose sum does not wrap has standard deviation 0. */
  lemma StdDevConstant(v: U64, n: nat)
    requires n > 0 && v * n < Modulus64
    ensures StdDevOf(seq(n, _ => v)) == 0
  {
    MeanConstant(v, n);
    AccumulatorConstant(seq(n, _ => v), v);
  }

  // ---------------------------------------------------------------------------
  // Percentile

  /**
   * The nearest-rank index for `percent` of `n` samples: the 0-based position
   * `k` with `100*k < percent*n <= 100*(k+1)`, that is `ceil(percent*n/100) - 1`.
   */
  function RankIndex(percent: int, n: nat): (k: nat)
    requires 0 < percent <= 100 && n > 0
    ensures k < n
    ensures 100 * k < percent * n <= 100 * (k + 1)
  {
    assert percent * n <= 100 * n;
    (percent * n + 99) / 100 - 1
  }

  /**
   * `Percentile` with an integer percent: 0 when `percent > 100`; otherwise
   * with `index = percent*n/100`, the element at `index - 1` when `index` is
   * whole and at `floor(index)` when it is not.  The source indexes -1 on
   * empty data and for `percent == 0`.
   */
  function Percentile(d: seq<U64>, percent: int): (r: U64)
    requires percent > 100 || (0 < percent && |d| > 0)
    ensures percent > 100 ==> r == 0
    ensures percent <= 100 ==> r == d[RankIndex(percent, |d|)]
  {
    if percent > 100 then 0
    else
      var n := |d|;
      assert percent * n <= 100 * n;
      if (percent * n) % 100 == 0 then d[percent * n / 100 - 1] else d[percent * n / 100]
  }

  /** The 100th percentile is the maximum. */
  lemma PercentileHundredIsMax(d: seq<U64>)
    requires |d| > 0
    ensures Percentile(d, 100) == Max(d)
  {
  }

  /** The nearest-rank index never decreases as the percent grows. */
  lemma RankIndexMonotone(p1: int, p2: int, n: nat)
    requires 0 < p1 <= p2 <= 100 && n > 0
    ensures RankIndex(p1, n) <= RankIndex(p2, n)
  {
    var k1, k2 := RankIndex(p1, n), RankIndex(p2, n);
    MulMonotone(p1, p2, n);
  }

  /** On sorted data `Percentile` is monotone in `percent`. */
  lemma PercentileMonotone(d: seq<U64>, p1: int, p2: int)
    requires Sorted(d) && |d| > 0 && 0 < p1 <= p2 <= 100
    ensures Percentile(d, p1) <= Percentile(d, p2)
  {
    RankIndexMonotone(p1, p2, |d|);
  }

  /** On sorted data every percentile lies between `Min` and `Max`. */
  lemma PercentileBetweenMinMax(d: seq<U64>, p: int)
    requires Sorted(d) && |d| > 0 && 0 < p <= 100
    ensures Min(d) <= Percentile(d, p) <= Max(d)
  {
  }
}
