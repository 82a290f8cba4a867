/**
  The download estimator: fetch the files of a resolved prefix of the
  progression in order, record one sample per fetch, and stop after the first
  fetch that takes longer than the threshold. The last sample recorded is the
  representative one. Nothing is caught: an exception raised while fetching,
  or by the speed division, escapes to the caller.
 */
module Download {
  import opened Wrappers
  import Catalog
  import Speed

  /** What the network yields for one streamed GET: the number of body bytes
      actually received (the HTTP status is never inspected) and the elapsed
      seconds, or the message of an exception raised by the HTTP client. */
  datatype Fetch = Received(bytes: nat, elapsed: real) | Raised(message: string)

  /** One entry of `all_tests`. */
  datatype Sample = Sample(size: string, speed: real, elapsed: real, totalSize: nat, url: string)

  /** The dictionary returned when every attempted fetch completed. */
  datatype Report = Report(speed: real, elapsed: real, totalSize: nat, sizeUsed: string, allTests: seq<Sample>)

  /** A fetch whose outcome raises: a client exception, or a zero elapsed time
      dividing the byte count. */
  predicate Faults(f: Fetch) {
    f.Raised? || f.elapsed == 0.0
  }

  /** A fetch that is measured and lets the loop go on to the next size. */
  predicate Continues(f: Fetch) {
    f.Received? && f.elapsed != 0.0 && f.elapsed <= Catalog.MaxTestDuration
  }

  /** Step `k` is reached: every step before it was measured within the threshold. */
  predicate Reaches(fs: seq<Fetch>, k: nat)
    requires k <= |fs|
  {
    forall i :: 0 <= i < k ==> Continues(fs[i])
  }

  /** The sample recorded for fetching the file of `step`, or the exception
      that escapes. */
  function Measure(step: Catalog.SizeStep, f: Fetch): (r: Result<Sample, string>)
    ensures r.Failure? <==> Faults(f)
    ensures r.Failure? ==> r.error == if f.Raised? then f.message else Speed.ZeroDivisionMessage
    ensures r.Success? ==>
      && r.value.size == step.name
      && r.value.url == step.downloadUrl
      && r.value.totalSize == f.bytes
      && r.value.elapsed == f.elapsed
      && Speed.Mbps(f.bytes, f.elapsed) == Success(r.value.speed)
  {
    match f
    case Raised(m) => Failure(m)
    case Received(b, e) =>
      match Speed.Mbps(b, e)
      case Failure(m) => Failure(m)
      case Success(s) => Success(Sample(step.name, s, e, b, step.downloadUrl))
  }

  /** `pre` followed by the samples of `r`, or the exception of `r`. */
  function Prepend(pre: seq<Sample>, r: Result<seq<Sample>, string>): Result<seq<Sample>, string> {
    match r
    case Success(t) => Success(pre + t)
    case Failure(m) => Failure(m)
  }

  /** The samples recorded walking `steps`, `fs[i]` being what fetching the
      file of `steps[i]` yields, or the first exception raised. */
  function Run(steps: seq<Catalog.SizeStep>, fs: seq<Fetch>): (r: Result<seq<Sample>, string>)
    requires |fs| >= |steps|
    ensures r.Success? ==> |r.value| <= |steps| && (steps != [] ==> r.value != [])
    decreases |steps|
  {
    if steps == [] then Success([])
    else
      match Measure(steps[0], fs[0])
      case Failure(m) => Failure(m)
      case Success(s) =>
        if s.elapsed > Catalog.MaxTestDuration then Success([s])
        else Prepend([s], Run(steps[1..], fs[1..]))
  }

  /** Skipping a first fetch that continues shifts reachability by one. */
  lemma ReachesShift(fs: seq<Fetch>, k: nat)
    requires k < |fs| && Continues(fs[0])
    ensures Reaches(fs[1..], k) <==> Reaches(fs, k + 1)
  {
    if Reaches(fs[1..], k) {
      forall i | 0 <= i < k + 1 ensures Continues(fs[i]) {
        if i > 0 { assert fs[i] == fs[1..][i - 1]; }
      }
    }
  }

  /** The walk raises exactly when it reaches a faulty fetch, and then with
      that fetch's exception. */
  lemma {:induction false} RunFailsIffFaultReached(steps: seq<Catalog.SizeStep>, fs: seq<Fetch>)
    requires |fs| >= |steps|
    ensures Run(steps, fs).Failure? <==> exists k :: 0 <= k < |steps| && Reaches(fs, k) && Faults(fs[k])
    ensures Run(steps, fs).Failure? ==>
      exists k :: 0 <= k < |steps| && Reaches(fs, k) && Measure(steps[k], fs[k]) == Failure(Run(steps, fs).error)
    decreases |steps|
  {
    if steps != [] && Continues(fs[0]) {
      RunFailsIffFaultReached(steps[1..], fs[1..]);
      var rest := Run(steps[1..], fs[1..]);
      forall k | 0 <= k < |steps| - 1
        ensures Reaches(fs[1..], k) <==> Reaches(fs, k + 1)
      {
        ReachesShift(fs, k);
      }
      if rest.Failure? {
        var k :| 0 <= k < |steps| - 1 && Reaches(fs[1..], k) && Measure(steps[1..][k], fs[1..][k]) == Failure(rest.error);
        assert Reaches(fs, k + 1) && Measure(steps[k + 1], fs[k + 1]) == Failure(rest.error);
      }
      if exists k :: 0 <= k < |steps| && Reaches(fs, k) && Faults(fs[k]) {
        var k :| 0 <= k < |steps| && Reaches(fs, k) && Faults(fs[k]);
        assert k > 0;
        assert Reaches(fs[1..], k - 1) && Faults(fs[1..][k - 1]);
      }
    } else if steps != [] {
      assert Reaches(fs, 0);
    }
  }

  /** A walk that completes holds the samples of a prefix of the steps, each
      measured from its own fetch; all are within the threshold but the last,
      and it falls short of the whole of `steps` only when the last sample
      exceeds the threshold. */
  lemma {:induction false} RunSamplesPrefix(steps: seq<Catalog.SizeStep>, fs: seq<Fetch>)
    requires |fs| >= |steps|
    requires Run(steps, fs).Success?
    ensures var t := Run(steps, fs).value;
      && (forall i :: 0 <= i < |t| ==> Measure(steps[i], fs[i]) == Success(t[i]))
      && (forall i :: 0 <= i < |t| - 1 ==> t[i].elapsed <= Catalog.MaxTestDuration)
      && (|t| < |steps| ==> t[|t| - 1].elapsed > Catalog.MaxTestDuration)
    decreases |steps|
  {
    if steps != [] {
      var s := Measure(steps[0], fs[0]).value;
      if s.elapsed <= Catalog.MaxTestDuration {
        RunSamplesPrefix(steps[1..], fs[1..]);
        var rest := Run(steps[1..], fs[1..]).value;
        assert Run(steps, fs).value == [s] + rest;
      }
    }
  }

  /** The report for a walk that attempted the samples `t`: the figures of
      the last sample attempted, together with every sample. */
  function Summary(t: seq<Sample>): (r: Report)
    requires t != []
    ensures r.allTests == t
    ensures Sample(r.sizeUsed, r.speed, r.elapsed, r.totalSize, t[|t| - 1].url) == t[|t| - 1]
  {
    var last := t[|t| - 1];
    Report(last.speed, last.elapsed, last.totalSize, last.size, t)
  }

  /** The download measurement over the sizes `steps`. */
  function Estimate(steps: seq<Catalog.SizeStep>, fs: seq<Fetch>): (r: Result<Report, string>)
    requires 1 <= |steps| <= |fs|
    ensures r.Failure? <==> exists k :: 0 <= k < |steps| && Reaches(fs, k) && Faults(fs[k])
    ensures r.Failure? ==> exists k :: 0 <= k < |steps| && Reaches(fs, k) && Measure(steps[k], fs[k]) == Failure(r.error)
    ensures r.Success? ==>
      var t := r.value.allTests;
      && 1 <= |t| <= |steps|
      && (forall i :: 0 <= i < |t| ==> Measure(steps[i], fs[i]) == Success(t[i]))
      && (forall i :: 0 <= i < |t| - 1 ==> t[i].elapsed <= Catalog.MaxTestDuration)
      && (|t| < |steps| ==> t[|t| - 1].elapsed > Catalog.MaxTestDuration)
      && r.value.speed == t[|t| - 1].speed
      && r.value.elapsed == t[|t| - 1].elapsed
      && r.value.totalSize == t[|t| - 1].totalSize
      && r.value.sizeUsed == t[|t| - 1].size
  {
    RunFailsIffFaultReached(steps, fs);
    if Run(steps, fs).Success? then RunSamplesPrefix(steps, fs); Success(Summary(Run(steps, fs).value))
    else Failure(Run(steps, fs).error)
  }

  /** The download measurement for a requested size limit: the walk over the
      resolved prefix of the progression. Its i-th sample is always that of
      the i-th size of the progression. */
  function MeasureDownload(limit: string, fs: seq<Fetch>): (r: Result<Report, string>)
    requires |fs| >= Catalog.SizeCount
    ensures r.Failure? <==> exists k :: 0 <= k < |Catalog.Resolve(limit)| && Reaches(fs, k) && Faults(fs[k])
    ensures r.Failure? ==>
      exists k :: 0 <= k < |Catalog.Resolve(limit)| && Reaches(fs, k) && Measure(Catalog.Resolve(limit)[k], fs[k]) == Failure(r.error)
    ensures r.Success? ==>
      var t := r.value.allTests;
      && 1 <= |t| <= |Catalog.Resolve(limit)|
      && (forall i :: 0 <= i < |t| ==> Measure(Catalog.Resolve(limit)[i], fs[i]) == Success(t[i]))
      && (forall i :: 0 <= i < |t| - 1 ==> t[i].elapsed <= Catalog.MaxTestDuration)
      && (|t| < |Catalog.Resolve(limit)| ==> t[|t| - 1].elapsed > Catalog.MaxTestDuration)
      && r.value.sizeUsed == t[|t| - 1].size
      && r.value.elapsed == t[|t| - 1].elapsed
      && r.value.speed == t[|t| - 1].speed
      && r.value.totalSize == t[|t| - 1].totalSize
  {
    Estimate(Catalog.Resolve(limit), fs)
  }

  lemma PrependNothing(r: Result<seq<Sample>, string>)
    ensures Prepend([], r) == r
  {
    if r.Success? {
      assert [] + r.value == r.value;
    }
  }

  lemma PrependTwice(a: seq<Sample>, b: seq<Sample>, r: Result<seq<Sample>, string>)
    ensures Prepend(a, Prepend(b, r)) == Prepend(a + b, r)
  {
    if r.Success? {
      assert a + (b + r.value) == (a + b) + r.value;
    }
  }

  /** One step of `Run` from position `i`. */
  lemma RunStep(steps: seq<Catalog.SizeStep>, fs: seq<Fetch>, i: nat)
    requires i < |steps| <= |fs|
    ensures Run(steps[i..], fs[i..]) ==
      match Measure(steps[i], fs[i])
      case Failure(m) => Failure(m)
      case Success(s) =>
        if s.elapsed > Catalog.MaxTestDuration then Success([s])
        else Prepend([s], Run(steps[i + 1..], fs[i + 1..]))
  {
    assert steps[i..][1..] == steps[i + 1..];
    assert fs[i..][1..] == fs[i + 1..];
  }

  /** One turn of the estimator's loop: once `results` are recorded for the
      first `i` steps, measuring step `i` ends the walk with a failure, ends
      it with `results` and the new sample, or records the sample and goes on. */
  lemma LoopStep(steps: seq<Catalog.SizeStep>, fs: seq<Fetch>, i: nat, results: seq<Sample>)
    requires i < |steps| <= |fs|
    requires Run(steps, fs) == Prepend(results, Run(steps[i..], fs[i..]))
    ensures var m := Measure(steps[i], fs[i]);
      && (m.Failure? ==> Run(steps, fs) == Failure(m.error))
      && (m.Success? && m.value.elapsed > Catalog.MaxTestDuration ==> Run(steps, fs) == Success(results + [m.value]))
      && (m.Success? && m.value.elapsed <= Catalog.MaxTestDuration ==>
            Run(steps, fs) == Prepend(results + [m.value], Run(steps[i + 1..], fs[i + 1..])))
  {
    RunStep(steps, fs, i);
    var m := Measure(steps[i], fs[i]);
    if m.Success? {
      PrependTwice(results, [m.value], Run(steps[i + 1..], fs[i + 1..]));
    }
  }

  /** Once every step has been measured, nothing is left to walk and the
      walk is the samples recorded. */
  lemma WalkDone(steps: seq<Catalog.SizeStep>, fs: seq<Fetch>, results: seq<Sample>)
    requires |steps| <= |fs|
    ensures Prepend(results, Run(steps[|steps|..], fs[|steps|..])) == Success(results)
  {
    assert steps[|steps|..] == [];
    assert results + [] == results;
  }

  /** The estimate is the summary of the walk, or the walk's failure. */
  lemma EstimateFollowsRun(steps: seq<Catalog.SizeStep>, fs: seq<Fetch>)
    requires 1 <= |steps| <= |fs|
    ensures Run(steps, fs).Success? ==> Run(steps, fs).value != [] && Estimate(steps, fs) == Success(Summary(Run(steps, fs).value))
    ensures Run(steps, fs).Failure? ==> Estimate(steps, fs) == Failure(Run(steps, fs).error)
  {
  }

  /** The source's loop: walk the steps, append each sample, keep the latest
      as the final one, and break after the first fetch longer than the
      threshold; a failed fetch ends the walk with its error. It computes
      exactly the walk `Run` describes. */
  method WalkLoop(steps: seq<Catalog.SizeStep>, fs: seq<Fetch>) returns (walk: Result<seq<Sample>, string>, final: Option<Sample>)
    requires 1 <= |steps| <= |fs|
    ensures walk == Run(steps, fs)
    ensures walk.Success? ==> walk.value != [] && final == Some(walk.value[|walk.value| - 1])
  {
    var results: seq<Sample> := [];
    final := None;
    var i := 0;
    assert steps[0..] == steps && fs[0..] == fs;
    PrependNothing(Run(steps, fs));
    while i < |steps|
      invariant 0 <= i <= |steps|
      invariant |results| == i
      invariant i > 0 ==> final == Some(results[i - 1])
      invariant Run(steps, fs) == Prepend(results, Run(steps[i..], fs[i..]))
    {
      var m := Measure(steps[i], fs[i]);
      LoopStep(steps, fs, i, results);
      if m.Failure? {
        return Failure(m.error), final;
      }
      results := results + [m.value];
      final := Some(m.value);
      if m.value.elapsed > Catalog.MaxTestDuration {
        return Success(results), final;
      }
      i := i + 1;
    }
    WalkDone(steps, fs, results);
    walk := Success(results);
  }

  /** The estimator: the walk, then the report built from its final sample.
      It computes exactly what `Estimate` describes. */
  method EstimateLoop(steps: seq<Catalog.SizeStep>, fs: seq<Fetch>) returns (r: Result<Report, string>)
    requires 1 <= |steps| <= |fs|
    ensures r == Estimate(steps, fs)
  {
    var walk, final := WalkLoop(steps, fs);
    EstimateFollowsRun(steps, fs);
    if walk.Failure? {
      return Failure(walk.error);
    }
    var last := final.value;
    r := Success(Report(last.speed, last.elapsed, last.totalSize, last.size, walk.value));
  }

  /** The download tool as the source runs it, for a requested size limit. */
  method MeasureDownloadLoop(limit: string, fs: seq<Fetch>) returns (r: Result<Report, string>)
    requires |fs| >= Catalog.SizeCount
    ensures r == MeasureDownload(limit, fs)
  {
    r := EstimateLoop(Catalog.Resolve(limit), fs);
  }

  /** A link on which every fetch takes 0.1 s never crosses the threshold, so
      the whole resolved prefix is walked and the largest size reached is the
      representative: the requested label when it is a progression label,
      "512MB" otherwise. */
  lemma SteadyLinkWalksWholePrefix(limit: string, fs: seq<Fetch>)
    requires |fs| >= Catalog.SizeCount
    requires forall i :: 0 <= i < |fs| ==> fs[i].Received? && fs[i].elapsed == 0.1
    ensures MeasureDownload(limit, fs).Success?
    ensures |MeasureDownload(limit, fs).value.allTests| == |Catalog.Resolve(limit)|
    ensures limit in Catalog.Progression ==> MeasureDownload(limit, fs).value.sizeUsed == limit
    ensures limit !in Catalog.Progression ==> MeasureDownload(limit, fs).value.sizeUsed == "512MB"
  {
    var steps := Catalog.Resolve(limit);
    var r := MeasureDownload(limit, fs);
    assert !Faults(fs[0]);
    assert r.Success?;
    var t := r.value.allTests;
    assert Measure(steps[|t| - 1], fs[|t| - 1]) == Success(t[|t| - 1]);
    assert steps[|t| - 1] == Catalog.Table[|t| - 1];
  }

  /** When the third fetch is the first to exceed the threshold, exactly three
      sizes are fetched and the third is the representative. */
  lemma SlowThirdFetchStops(steps: seq<Catalog.SizeStep>, fs: seq<Fetch>)
    requires 3 <= |steps| <= |fs|
    requires Continues(fs[0]) && Continues(fs[1])
    requires fs[2].Received? && fs[2].elapsed > Catalog.MaxTestDuration
    ensures Estimate(steps, fs).Success?
    ensures |Estimate(steps, fs).value.allTests| == 3
    ensures Estimate(steps, fs).value.sizeUsed == steps[2].name
    ensures Estimate(steps, fs).value.elapsed == fs[2].elapsed
  {
    var s0 := Measure(steps[0], fs[0]).value;
    var s1 := Measure(steps[1], fs[1]).value;
    var s2 := Measure(steps[2], fs[2]).value;
    RunStep(steps, fs, 2);
    assert Run(steps[2..], fs[2..]) == Success([s2]);
    RunStep(steps, fs, 1);
    assert [s1] + [s2] == [s1, s2];
    assert Run(steps[1..], fs[1..]) == Success([s1, s2]);
    RunStep(steps, fs, 0);
    assert steps[0..] == steps && fs[0..] == fs;
    assert [s0] + [s1, s2] == [s0, s1, s2];
    assert Run(steps, fs) == Success([s0, s1, s2]);
    EstimateFollowsRun(steps, fs);
  }

  /** For the progression: when the third fetch is the first to exceed the
      threshold, exactly three sizes are fetched and the third ("512KB") is
      the representative. */
  lemma SlowThirdFetchIsRepresentative(limit: string, fs: seq<Fetch>)
    requires limit != "128KB" && limit != "256KB" && |fs| >= Catalog.SizeCount
    requires Continues(fs[0]) && Continues(fs[1])
    requires fs[2].Received? && fs[2].elapsed > Catalog.MaxTestDuration
    ensures MeasureDownload(limit, fs).Success?
    ensures |MeasureDownload(limit, fs).value.allTests| == 3
    ensures MeasureDownload(limit, fs).value.sizeUsed == "512KB"
    ensures MeasureDownload(limit, fs).value.elapsed == fs[2].elapsed
  {
    SlowThirdFetchStops(Catalog.Resolve(limit), fs);
    assert Catalog.Resolve(limit)[2] == Catalog.Table[2];
  }
}
