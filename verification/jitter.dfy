/**
  Latency and jitter: timed round trips converted to milliseconds, their
  arithmetic mean, and jitter as the mean absolute deviation from that mean.
  An exception raised by any round trip escapes to the caller.
 */
module Jitter {
  import opened Wrappers

  /** What the network yields for one GET: the elapsed seconds, or the
      message of an exception raised by the HTTP client. */
  datatype Probe = Answered(seconds: real) | Raised(message: string)

  datatype LatencyReport = LatencyReport(latency: real, url: string)

  datatype JitterReport = JitterReport(jitter: real, averageLatency: real, samples: int, url: string)

  /** What Python's `str()` gives for dividing the empty sum by the empty length. */
  const DivisionByZeroMessage: string := "division by zero"

  function Abs(x: real): real {
    if x < 0.0 then -x else x
  }

  function Sum(xs: seq<real>): real
    decreases |xs|
  {
    if xs == [] then 0.0 else xs[0] + Sum(xs[1..])
  }

  function Average(xs: seq<real>): real
    requires |xs| > 0
  {
    Sum(xs) / |xs| as real
  }

  /** The sum of the distances of the samples from `m`. */
  function DeviationSum(xs: seq<real>, m: real): real
    decreases |xs|
  {
    if xs == [] then 0.0 else Abs(xs[0] - m) + DeviationSum(xs[1..], m)
  }

  /** Mean absolute deviation of the samples from their average. */
  function MeanDeviation(xs: seq<real>): real
    requires |xs| > 0
  {
    DeviationSum(xs, Average(xs)) / |xs| as real
  }

  /** Milliseconds of a round trip of `seconds`. */
  function Millis(seconds: real): real {
    seconds * 1000.0
  }

  /** The single latency probe, in milliseconds. */
  function MeasureLatency(url: string, p: Probe): (r: Result<LatencyReport, string>)
    ensures r.Failure? <==> p.Raised?
    ensures r.Success? ==> r.value.url == url && r.value.latency / 1000.0 == p.seconds
  {
    match p
    case Raised(m) => Failure(m)
    case Answered(s) => Success(LatencyReport(Millis(s), url))
  }

  /** The round trips of `probes` in milliseconds, or the first exception. */
  function Collect(probes: seq<Probe>): (r: Result<seq<real>, string>)
    ensures r.Failure? <==> exists i :: 0 <= i < |probes| && probes[i].Raised?
    ensures r.Success? ==> |r.value| == |probes| && forall i :: 0 <= i < |probes| ==> r.value[i] == Millis(probes[i].seconds)
    decreases |probes|
  {
    if probes == [] then Success([])
    else
      match probes[0]
      case Raised(m) => Failure(m)
      case Answered(s) =>
        match Collect(probes[1..])
        case Failure(m) => Failure(m)
        case Success(rest) =>
          assert forall i :: 1 <= i < |probes| ==> probes[i] == probes[1..][i - 1];
          Success([Millis(s)] + rest)
  }

  /** The jitter tool: `samples` round trips (none when `samples` is not
      positive, as `range` gives), then their average and mean deviation.
      With no samples the averaging divides by zero. */
  function MeasureJitter(url: string, samples: int, probes: seq<Probe>): (r: Result<JitterReport, string>)
    requires samples <= |probes|
    ensures r.Failure? <==> samples <= 0 || exists i :: 0 <= i < samples && probes[i].Raised?
    ensures samples <= 0 ==> r == Failure(DivisionByZeroMessage)
    ensures r.Success? ==>
      var ms := Collect(probes[..samples]).value;
      && r.value.samples == samples && r.value.url == url
      && r.value.averageLatency * samples as real == Sum(ms)
      && r.value.jitter * samples as real == DeviationSum(ms, r.value.averageLatency)
      && r.value.jitter >= 0.0
  {
    var n := if samples > 0 then samples else 0;
    assert forall i :: 0 <= i < n ==> probes[..n][i] == probes[i];
    match Collect(probes[..n])
    case Failure(m) => Failure(m)
    case Success(ms) =>
      if |ms| == 0 then Failure(DivisionByZeroMessage)
      else
        MeanDeviationNonNegative(ms);
        Success(JitterReport(MeanDeviation(ms), Average(ms), samples, url))
  }

  /** Round trips that all take the same time report that time as the
      average latency and no jitter. */
  lemma SteadyLatencyHasNoJitter(url: string, samples: int, probes: seq<Probe>, seconds: real)
    requires 0 < samples <= |probes|
    requires forall i :: 0 <= i < |probes| ==> probes[i] == Answered(seconds)
    ensures MeasureJitter(url, samples, probes).Success?
    ensures MeasureJitter(url, samples, probes).value.averageLatency == Millis(seconds)
    ensures MeasureJitter(url, samples, probes).value.jitter == 0.0
  {
    var ms := Collect(probes[..samples]).value;
    SumConstant(ms, Millis(seconds));
    MeanDeviationZeroIffConstant(ms);
  }

  // ---------------------------------------------------------------------
  // Properties of the statistics

  lemma {:induction false} DeviationSumNonNegative(xs: seq<real>, m: real)
    ensures DeviationSum(xs, m) >= 0.0
    decreases |xs|
  {
    if xs != [] {
      DeviationSumNonNegative(xs[1..], m);
    }
  }

  /** Jitter is never negative. */
  lemma MeanDeviationNonNegative(xs: seq<real>)
    requires |xs| > 0
    ensures MeanDeviation(xs) >= 0.0
  {
    DeviationSumNonNegative(xs, Average(xs));
  }

  /** The samples are at total distance zero from `m` exactly when every one
      of them equals `m`. */
  lemma {:induction false} DeviationSumZeroIff(xs: seq<real>, m: real)
    ensures DeviationSum(xs, m) == 0.0 <==> forall i :: 0 <= i < |xs| ==> xs[i] == m
    decreases |xs|
  {
    if xs != [] {
      DeviationSumZeroIff(xs[1..], m);
      DeviationSumNonNegative(xs[1..], m);
      if forall i :: 0 <= i < |xs| ==> xs[i] == m {
        assert forall i :: 0 <= i < |xs[1..]| ==> xs[1..][i] == m;
      }
      if DeviationSum(xs, m) == 0.0 {
        forall i | 0 <= i < |xs| ensures xs[i] == m {
          if i > 0 { assert xs[i] == xs[1..][i - 1]; }
        }
      }
    }
  }

  lemma {:induction false} SumConstant(xs: seq<real>, c: real)
    requires forall i :: 0 <= i < |xs| ==> xs[i] == c
    ensures Sum(xs) == |xs| as real * c
    decreases |xs|
  {
    if xs != [] {
      SumConstant(xs[1..], c);
    }
  }

  /** Jitter is zero exactly when every sample is the same. */
  lemma MeanDeviationZeroIffConstant(xs: seq<real>)
    requires |xs| > 0
    ensures MeanDeviation(xs) == 0.0 <==> forall i, j :: 0 <= i < |xs| && 0 <= j < |xs| ==> xs[i] == xs[j]
  {
    var avg := Average(xs);
    DeviationSumZeroIff(xs, avg);
    if forall i, j :: 0 <= i < |xs| && 0 <= j < |xs| ==> xs[i] == xs[j] {
      SumConstant(xs, xs[0]);
      assert avg == xs[0];
    }
  }

  /** Five round trips of 100, 102, 98, 100 and 100 ms average 100 ms with a
      jitter of 0.8 ms. */
  lemma FiveSampleExample()
    ensures Average([100.0, 102.0, 98.0, 100.0, 100.0]) == 100.0
    ensures MeanDeviation([100.0, 102.0, 98.0, 100.0, 100.0]) == 0.8
  {
    var xs := [100.0, 102.0, 98.0, 100.0, 100.0];
    assert xs[1..] == [102.0, 98.0, 100.0, 100.0];
    assert xs[1..][1..] == [98.0, 100.0, 100.0];
    assert xs[1..][1..][1..] == [100.0, 100.0];
    assert xs[1..][1..][1..][1..] == [100.0];
    assert Sum(xs) == 500.0;
    assert DeviationSum(xs, 100.0) == 4.0;
  }

  /** Every sample delayed by the same `c`. */
  function Shift(xs: seq<real>, c: real): (ys: seq<real>)
    ensures |ys| == |xs|
    ensures forall i :: 0 <= i < |xs| ==> ys[i] == xs[i] + c
  {
    seq(|xs|, i requires 0 <= i < |xs| => xs[i] + c)
  }

  lemma {:induction false} SumShift(xs: seq<real>, c: real)
    ensures Sum(Shift(xs, c)) == Sum(xs) + |xs| as real * c
    decreases |xs|
  {
    if xs != [] {
      SumShift(xs[1..], c);
      assert Shift(xs, c)[1..] == Shift(xs[1..], c);
    }
  }

  lemma {:induction false} DeviationSumShift(xs: seq<real>, m: real, c: real)
    ensures DeviationSum(Shift(xs, c), m + c) == DeviationSum(xs, m)
    decreases |xs|
  {
    if xs != [] {
      DeviationSumShift(xs[1..], m, c);
      assert Shift(xs, c)[1..] == Shift(xs[1..], c);
    }
  }

  /** A constant extra delay on every round trip moves the average by that
      delay and leaves the jitter unchanged. */
  lemma ShiftMovesAverageKeepsJitter(xs: seq<real>, c: real)
    requires |xs| > 0
    ensures Average(Shift(xs, c)) == Average(xs) + c
    ensures MeanDeviation(Shift(xs, c)) == MeanDeviation(xs)
  {
    SumShift(xs, c);
    var n := |xs| as real;
    assert Average(Shift(xs, c)) == (Sum(xs) + n * c) / n;
    DeviationSumShift(xs, Average(xs), c);
  }

  lemma {:induction false} SumBounds(xs: seq<real>, lo: real, hi: real)
    requires forall i :: 0 <= i < |xs| ==> lo <= xs[i] <= hi
    ensures |xs| as real * lo <= Sum(xs) <= |xs| as real * hi
    decreases |xs|
  {
    if xs != [] {
      assert forall i :: 0 <= i < |xs[1..]| ==> xs[1..][i] == xs[i + 1];
      SumBounds(xs[1..], lo, hi);
    }
  }

  lemma {:induction false} DeviationSumBound(xs: seq<real>, m: real, d: real)
    requires forall i :: 0 <= i < |xs| ==> Abs(xs[i] - m) <= d
    ensures DeviationSum(xs, m) <= |xs| as real * d
    decreases |xs|
  {
    if xs != [] {
      assert forall i :: 0 <= i < |xs[1..]| ==> xs[1..][i] == xs[i + 1];
      DeviationSumBound(xs[1..], m, d);
      assert Abs(xs[0] - m) <= d;
      assert (|xs| - 1) as real * d + d == |xs| as real * d;
    }
  }

  lemma QuotientBounds(a: real, n: real, lo: real, hi: real)
    requires n > 0.0 && n * lo <= a <= n * hi
    ensures lo <= a / n <= hi
  {
    var q := a / n;
    assert q * n == a;
  }

  /** When every sample lies in [lo, hi], so does the average, and the jitter
      is at most the spread hi - lo. */
  lemma AverageAndJitterBounded(xs: seq<real>, lo: real, hi: real)
    requires |xs| > 0
    requires forall i :: 0 <= i < |xs| ==> lo <= xs[i] <= hi
    ensures lo <= Average(xs) <= hi
    ensures MeanDeviation(xs) <= hi - lo
  {
    SumBounds(xs, lo, hi);
    var n := |xs| as real;
    QuotientBounds(Sum(xs), n, lo, hi);
    var avg := Average(xs);
    DeviationSumBound(xs, avg, hi - lo);
    DeviationSumNonNegative(xs, avg);
    QuotientBounds(DeviationSum(xs, avg), n, 0.0, hi - lo);
  }
}
