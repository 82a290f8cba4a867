/**
  The upload estimator: post synthetic payloads of the sizes of a resolved
  prefix of the progression, skipping the sizes too large to send, and stop
  after the first post that takes longer than the threshold, or after the
  first failed post once some post has succeeded. A failed post before any
  success is recorded and the next size is tried. Every failure is caught and
  recorded; the result is the last successful measurement, or an error
  payload when no post succeeded.
 */
module Upload {
  import opened Wrappers
  import Catalog
  import Speed

  /** What the network yields for one POST: the HTTP status and the elapsed
      seconds, or the message of an exception raised by the HTTP client
      (a connection failure or the 60-second timeout). */
  datatype Post = Responded(status: int, elapsed: real) | Raised(message: string)

  /** Why a post was recorded as an error: a status other than 200, or an
      exception, including the division by a zero elapsed time. */
  datatype Problem = HttpError(status: int) | Exception(message: string)

  /** One entry of `all_tests`: a measurement, or an error entry. */
  datatype Entry =
    | Measured(size: string, speed: real, elapsed: real, dataSize: nat, url: string)
    | Errored(size: string, problem: Problem, url: string)

  /** The dictionary returned: the figures of the last measurement, or the
      error payload listing every attempt when none succeeded. */
  datatype Report =
    | Uploaded(speed: real, elapsed: real, dataSize: nat, sizeUsed: string, allTests: seq<Entry>)
    | AllFailed(message: string, details: seq<Entry>)
  {
    /** Every attempt, in order. */
    function Attempts(): seq<Entry> {
      if Uploaded? then allTests else details
    }
  }

  const AllFailedMessage: string := "All upload tests failed"

  /** Labels never posted, whatever the requested limit. */
  const SkippedLabels: seq<string> := ["256MB", "512MB"]

  /** A post succeeds when it answers 200 after a non-zero time; any other
      outcome, including a 200 whose speed division raises, is a failure. */
  predicate Succeeds(p: Post) {
    p.Responded? && p.status == 200 && p.elapsed != 0.0
  }

  /** The entry recorded for posting the payload of `step` to `url`. */
  function Attempt(step: Catalog.SizeStep, url: string, p: Post): (e: Entry)
    ensures e.size == step.name && e.url == url
    ensures e.Measured? <==> Succeeds(p)
    ensures e.Measured? ==>
      && e.dataSize == step.uploadBytes
      && e.elapsed == p.elapsed
      && Speed.Mbps(step.uploadBytes, p.elapsed) == Success(e.speed)
    ensures p.Raised? ==> e.Errored? && e.problem == Exception(p.message)
    ensures p.Responded? && p.status != 200 ==> e.Errored? && e.problem == HttpError(p.status)
    ensures p.Responded? && p.status == 200 && p.elapsed == 0.0 ==> e.Errored? && e.problem == Exception(Speed.ZeroDivisionMessage)
  {
    match p
    case Raised(m) => Errored(step.name, Exception(m), url)
    case Responded(status, elapsed) =>
      if status == 200 then
        match Speed.Mbps(step.uploadBytes, elapsed)
        case Success(speed) => Measured(step.name, speed, elapsed, step.uploadBytes, url)
        case Failure(m) => Errored(step.name, Exception(m), url)
      else Errored(step.name, HttpError(status), url)
  }

  /** The sizes actually posted, in order, each with what posting it yields:
      `steps` without the skipped labels, `posts[i]` belonging to `steps[i]`. */
  function Schedule(steps: seq<Catalog.SizeStep>, posts: seq<Post>): (s: seq<(Catalog.SizeStep, Post)>)
    requires |posts| >= |steps|
    ensures |s| <= |steps|
    ensures forall k :: 0 <= k < |s| ==> s[k].0.name !in SkippedLabels
    decreases |steps|
  {
    if steps == [] then []
    else if steps[0].name in SkippedLabels then Schedule(steps[1..], posts[1..])
    else [(steps[0], posts[0])] + Schedule(steps[1..], posts[1..])
  }

  /** The last measurement in `t`, or `d` when `t` holds none: the value the
      source's `final_result` has after recording `t` starting from `d`. */
  function Latest(t: seq<Entry>, d: Option<Entry>): Option<Entry>
    decreases |t|
  {
    if t == [] then d
    else Latest(t[1..], if t[0].Measured? then Some(t[0]) else d)
  }

  /** Some entry before position `k` is a measurement. */
  predicate SucceededBefore(t: seq<Entry>, k: nat)
    requires k <= |t|
  {
    exists j :: 0 <= j < k && t[j].Measured?
  }

  /** Whether recording `e` ends the walk, given whether a post has already
      succeeded: a measurement ends it when it exceeds the threshold, an
      error when there is an earlier success to fall back on. */
  predicate Stops(e: Entry, succeeded: bool) {
    if e.Measured? then e.elapsed > Catalog.MaxTestDuration else succeeded
  }

  /** The entries recorded so far and the latest measurement. */
  datatype Progress = Progress(tests: seq<Entry>, final: Option<Entry>)

  function Prepend(e: Entry, p: Progress): Progress {
    Progress([e] + p.tests, p.final)
  }

  /** The walk over the scheduled posts, `final` being the latest measurement
      recorded before it. */
  function Walk(sched: seq<(Catalog.SizeStep, Post)>, url: string, final: Option<Entry>): (r: Progress)
    ensures |r.tests| <= |sched|
    ensures sched != [] ==> r.tests != []
    decreases |sched|
  {
    if sched == [] then Progress([], final)
    else
      var e := Attempt(sched[0].0, url, sched[0].1);
      if e.Measured? then
        if e.elapsed > Catalog.MaxTestDuration then Progress([e], Some(e))
        else Prepend(e, Walk(sched[1..], url, Some(e)))
      else if final.Some? then Progress([e], final)
      else Prepend(e, Walk(sched[1..], url, final))
  }

  /** The report built from a finished walk. */
  function Conclude(p: Progress): (r: Report)
    requires p.final.Some? ==> p.final.value.Measured?
    ensures r.Attempts() == p.tests
    ensures r.AllFailed? <==> p.final.None?
    ensures r.AllFailed? ==> r.message == AllFailedMessage
    ensures r.Uploaded? ==>
      Measured(r.sizeUsed, r.speed, r.elapsed, r.dataSize, p.final.value.url) == p.final.value
  {
    match p.final
    case None => AllFailed(AllFailedMessage, p.tests)
    case Some(f) => Uploaded(f.speed, f.elapsed, f.dataSize, f.size, p.tests)
  }

  /** The upload measurement over the scheduled posts `sched`: the error
      payload exactly when no post succeeded, in which case every scheduled
      size was tried; otherwise the figures of the last measurement. */
  function Estimate(sched: seq<(Catalog.SizeStep, Post)>, url: string): (r: Report)
    ensures var t := r.Attempts();
      && |t| <= |sched|
      && (sched != [] ==> t != [])
      && (forall k :: 0 <= k < |t| ==> t[k] == Attempt(sched[k].0, url, sched[k].1))
      && (r.AllFailed? <==> forall k :: 0 <= k < |t| ==> !t[k].Measured?)
      && (r.AllFailed? ==> r.message == AllFailedMessage && |t| == |sched|)
      && (r.Uploaded? ==>
            exists k :: 0 <= k < |t| && t[k].Measured?
              && (forall j :: k < j < |t| ==> !t[j].Measured?)
              && t[k] == Measured(r.sizeUsed, r.speed, r.elapsed, r.dataSize, url))
  {
    var p := Walk(sched, url, None);
    WalkFinalIsLatest(sched, url, None);
    WalkFollowsSchedule(sched, url, None);
    LatestIsMeasurement(p.tests, None);
    LatestIsLastMeasured(p.tests, None);
    FailedWalkIsExhaustive(sched, url);
    Conclude(p)
  }

  /** The upload measurement to `url` for a requested size limit, `posts[i]`
      being what posting the i-th size of the progression yields. */
  function MeasureUpload(url: string, limit: string, posts: seq<Post>): (r: Report)
    requires |posts| >= Catalog.SizeCount
    ensures 1 <= |r.Attempts()| <= |Schedule(Catalog.Resolve(limit), posts)|
    ensures forall k :: 0 <= k < |r.Attempts()| ==> r.Attempts()[k].size != "512MB"
  {
    var sched := Schedule(Catalog.Resolve(limit), posts);
    assert sched != [] by {
      assert Catalog.Resolve(limit)[0] == Catalog.Table[0];
    }
    Estimate(sched, url)
  }

  // ---------------------------------------------------------------------
  // Properties of the walk

  /** `Latest` holds a measurement, or the starting value. */
  lemma {:induction false} LatestIsMeasurement(t: seq<Entry>, d: Option<Entry>)
    requires d.Some? ==> d.value.Measured?
    ensures Latest(t, d).Some? ==> Latest(t, d).value.Measured?
    decreases |t|
  {
    if t != [] {
      LatestIsMeasurement(t[1..], if t[0].Measured? then Some(t[0]) else d);
    }
  }

  /** `Latest(t, d)` is the last measurement of `t`, or `d` when `t` has none. */
  lemma {:induction false} LatestIsLastMeasured(t: seq<Entry>, d: Option<Entry>)
    ensures (forall j :: 0 <= j < |t| ==> !t[j].Measured?) ==> Latest(t, d) == d
    ensures (exists j :: 0 <= j < |t| && t[j].Measured?) ==>
      exists k :: 0 <= k < |t| && t[k].Measured? && Latest(t, d) == Some(t[k])
        && forall j :: k < j < |t| ==> !t[j].Measured?
    decreases |t|
  {
    if t != [] {
      var d' := if t[0].Measured? then Some(t[0]) else d;
      LatestIsLastMeasured(t[1..], d');
      if exists j :: 0 <= j < |t[1..]| && t[1..][j].Measured? {
        var k :| 0 <= k < |t[1..]| && t[1..][k].Measured? && Latest(t[1..], d') == Some(t[1..][k])
          && forall j :: k < j < |t[1..]| ==> !t[1..][j].Measured?;
        assert t[k + 1] == t[1..][k];
        forall j | k + 1 < j < |t| ensures !t[j].Measured? {
          assert t[j] == t[1..][j - 1];
        }
      } else if t[0].Measured? {
        forall j | 0 < j < |t| ensures !t[j].Measured? {
          assert t[j] == t[1..][j - 1];
        }
      } else {
        forall j | 0 <= j < |t| ensures !t[j].Measured? {
          if j > 0 { assert t[j] == t[1..][j - 1]; }
        }
      }
    }
  }

  /** From no starting measurement, `Latest` of the first `k` entries holds
      a measurement exactly when one of them succeeded. */
  lemma LatestSomeIffSucceeded(t: seq<Entry>, k: nat)
    requires k <= |t|
    ensures Latest(t[..k], None).Some? <==> SucceededBefore(t, k)
  {
    LatestIsLastMeasured(t[..k], None);
    if SucceededBefore(t, k) {
      var j :| 0 <= j < k && t[j].Measured?;
      assert t[..k][j] == t[j];
    }
  }

  /** The walk's final value is the latest measurement among its entries. */
  lemma {:induction false} WalkFinalIsLatest(sched: seq<(Catalog.SizeStep, Post)>, url: string, final: Option<Entry>)
    ensures Walk(sched, url, final).final == Latest(Walk(sched, url, final).tests, final)
    decreases |sched|
  {
    if sched != [] {
      var e := Attempt(sched[0].0, url, sched[0].1);
      var d' := if e.Measured? then Some(e) else final;
      if !Stops(e, final.Some?) {
        WalkFinalIsLatest(sched[1..], url, d');
        var rest := Walk(sched[1..], url, d');
        assert ([e] + rest.tests)[1..] == rest.tests;
      } else {
        assert [e][1..] == [];
      }
    }
  }

  /** The entries of the walk are the attempts of a prefix of the schedule, in
      order. Every entry but the last lets the walk go on, and the walk ends
      before the schedule does only because its last entry stops it. */
  lemma WalkFollowsSchedule(sched: seq<(Catalog.SizeStep, Post)>, url: string, final: Option<Entry>)
    ensures var t := Walk(sched, url, final).tests;
      && (forall k :: 0 <= k < |t| ==> t[k] == Attempt(sched[k].0, url, sched[k].1))
      && (forall k :: 0 <= k < |t| - 1 ==> !Stops(t[k], Latest(t[..k], final).Some?))
      && (|t| < |sched| ==> Stops(t[|t| - 1], Latest(t[..|t| - 1], final).Some?))
  {
    WalkAttempts(sched, url, final);
    WalkStopRule(sched, url, final);
  }

  /** The k-th entry of `t` is the attempt of the k-th scheduled post. */
  predicate AttemptsOf(t: seq<Entry>, sched: seq<(Catalog.SizeStep, Post)>, url: string)
    requires |t| <= |sched|
  {
    forall k :: 0 <= k < |t| ==> t[k] == Attempt(sched[k].0, url, sched[k].1)
  }

  /** The k-th entry of the walk is the attempt of the k-th scheduled post. */
  lemma {:induction false} WalkAttempts(sched: seq<(Catalog.SizeStep, Post)>, url: string, final: Option<Entry>)
    ensures AttemptsOf(Walk(sched, url, final).tests, sched, url)
    decreases |sched|
  {
    if sched != [] {
      var e := Attempt(sched[0].0, url, sched[0].1);
      var d' := if e.Measured? then Some(e) else final;
      var t := Walk(sched, url, final).tests;
      if !Stops(e, final.Some?) {
        WalkAttempts(sched[1..], url, d');
        var rest := Walk(sched[1..], url, d').tests;
        assert t == [e] + rest;
        forall k | 0 < k < |t| ensures t[k] == Attempt(sched[k].0, url, sched[k].1) {
          assert t[k] == rest[k - 1] && sched[k] == sched[1..][k - 1];
        }
      }
    }
  }

  /** `Latest` over a prefix that starts with `e` is `Latest` over the rest
      of that prefix, starting from what `e` leaves. */
  lemma LatestAfterFirst(e: Entry, rest: seq<Entry>, final: Option<Entry>, k: nat)
    requires 0 < k <= |rest| + 1
    ensures Latest(([e] + rest)[..k], final) == Latest(rest[..k - 1], if e.Measured? then Some(e) else final)
  {
    assert ([e] + rest)[..k][1..] == rest[..k - 1];
  }

  /** Every entry of the walk but the last lets it go on, and the walk ends
      before the schedule does only because its last entry stops it. */
  lemma WalkStopRule(sched: seq<(Catalog.SizeStep, Post)>, url: string, final: Option<Entry>)
    ensures var t := Walk(sched, url, final).tests;
      && (forall k :: 0 <= k < |t| - 1 ==> !Stops(t[k], Latest(t[..k], final).Some?))
      && (|t| < |sched| ==> Stops(t[|t| - 1], Latest(t[..|t| - 1], final).Some?))
  {
    WalkGoesOn(sched, url, final);
    WalkEndsEarly(sched, url, final);
  }

  /** No entry of `t` but the last stops a walk that began after `final`. */
  predicate GoesOn(t: seq<Entry>, final: Option<Entry>) {
    forall k :: 0 <= k < |t| - 1 ==> !Stops(t[k], Latest(t[..k], final).Some?)
  }

  /** No entry of the walk but the last stops it. */
  lemma {:induction false} WalkGoesOn(sched: seq<(Catalog.SizeStep, Post)>, url: string, final: Option<Entry>)
    ensures GoesOn(Walk(sched, url, final).tests, final)
    decreases |sched|
  {
    if sched != [] {
      var e := Attempt(sched[0].0, url, sched[0].1);
      if !Stops(e, final.Some?) {
        var d' := if e.Measured? then Some(e) else final;
        WalkGoesOn(sched[1..], url, d');
        var rest := Walk(sched[1..], url, d').tests;
        var t := [e] + rest;
        assert t[..0] == [];
        forall k | 0 < k < |t| - 1 ensures !Stops(t[k], Latest(t[..k], final).Some?) {
          LatestAfterFirst(e, rest, final, k);
          assert t[k] == rest[k - 1];
        }
      }
    }
  }

  /** The last entry of `t` stops a walk that began after `final`. */
  predicate EndsOnStop(t: seq<Entry>, final: Option<Entry>) {
    t != [] && Stops(t[|t| - 1], Latest(t[..|t| - 1], final).Some?)
  }

  /** The walk ends before the schedule does only because its last entry
      stops it. */
  lemma {:induction false} WalkEndsEarly(sched: seq<(Catalog.SizeStep, Post)>, url: string, final: Option<Entry>)
    ensures |Walk(sched, url, final).tests| < |sched| ==> EndsOnStop(Walk(sched, url, final).tests, final)
    decreases |sched|
  {
    if sched != [] {
      var e := Attempt(sched[0].0, url, sched[0].1);
      if Stops(e, final.Some?) {
        assert [e][..0] == [];
      } else {
        var d' := if e.Measured? then Some(e) else final;
        WalkEndsEarly(sched[1..], url, d');
        var rest := Walk(sched[1..], url, d').tests;
        var t := [e] + rest;
        if |rest| < |sched| - 1 {
          var k := |t| - 1;
          LatestAfterFirst(e, rest, final, k);
          assert t[k] == rest[k - 1];
        }
      }
    }
  }

  /** A walk in which no post succeeds never stops early: every scheduled
      size is tried. */
  lemma FailedWalkIsExhaustive(sched: seq<(Catalog.SizeStep, Post)>, url: string)
    ensures var t := Walk(sched, url, None).tests;
      (forall k :: 0 <= k < |t| ==> !t[k].Measured?) ==> |t| == |sched|
  {
    var t := Walk(sched, url, None).tests;
    WalkFollowsSchedule(sched, url, None);
    if (forall k :: 0 <= k < |t| ==> !t[k].Measured?) && |t| < |sched| {
      LatestSomeIffSucceeded(t, |t| - 1);
    }
  }

  /** The stopping rule, both ways: entry `k` is the last one recorded exactly
      when it stops the walk (a measurement over the threshold, or an error
      after an earlier success) or when the schedule has no further size. */
  lemma EstimateStopsExactly(sched: seq<(Catalog.SizeStep, Post)>, url: string)
    ensures var t := Estimate(sched, url).Attempts();
      forall k :: 0 <= k < |t| ==>
        (k == |t| - 1 <==> Stops(t[k], SucceededBefore(t, k)) || k == |sched| - 1)
  {
    var t := Walk(sched, url, None).tests;
    WalkFollowsSchedule(sched, url, None);
    forall k | 0 <= k < |t|
      ensures k == |t| - 1 <==> Stops(t[k], SucceededBefore(t, k)) || k == |sched| - 1
    {
      LatestSomeIffSucceeded(t, k);
    }
  }

  /** Of the progression, only "512MB" is ever skipped: "256MB" in the skip
      list names no size of the progression. */
  lemma OnlyLargestSkipped()
    ensures "256MB" !in Catalog.Progression
    ensures forall k :: 0 <= k < |Catalog.Table| ==> (Catalog.Table[k].name in SkippedLabels <==> k == |Catalog.Table| - 1)
  {
  }

  /** Scheduling steps of which at most the last is skipped keeps every step
      but that last one, each with its own post. */
  lemma {:induction false} ScheduleDropsOnlyLast(steps: seq<Catalog.SizeStep>, posts: seq<Post>)
    requires |posts| >= |steps|
    requires forall i :: 0 <= i < |steps| - 1 ==> steps[i].name !in SkippedLabels
    ensures var m := if steps != [] && steps[|steps| - 1].name in SkippedLabels then |steps| - 1 else |steps|;
      && |Schedule(steps, posts)| == m
      && forall k :: 0 <= k < m ==> Schedule(steps, posts)[k] == (steps[k], posts[k])
    decreases |steps|
  {
    if |steps| > 1 {
      ScheduleDropsOnlyLast(steps[1..], posts[1..]);
      assert steps[1..][|steps| - 2] == steps[|steps| - 1];
      var rest := Schedule(steps[1..], posts[1..]);
      forall k | 0 < k < |Schedule(steps, posts)|
        ensures Schedule(steps, posts)[k] == (steps[k], posts[k])
      {
        assert Schedule(steps, posts)[k] == rest[k - 1];
        assert steps[1..][k - 1] == steps[k] && posts[1..][k - 1] == posts[k];
      }
    }
  }

  /** The number of sizes posted for a requested limit: the resolved prefix
      without "512MB". */
  function PostCount(limit: string): (m: nat)
    ensures 1 <= m < |Catalog.Table|
    ensures m == |Catalog.Resolve(limit)| || (m == |Catalog.Resolve(limit)| - 1 && Catalog.Resolve(limit) == Catalog.Table)
  {
    var n := |Catalog.Resolve(limit)|;
    if n == |Catalog.Table| then n - 1 else n
  }

  /** The schedule of a resolved prefix is the prefix itself, less "512MB",
      each size with the post at its own position. */
  lemma ScheduleOfResolved(limit: string, posts: seq<Post>)
    requires |posts| >= Catalog.SizeCount
    ensures |Schedule(Catalog.Resolve(limit), posts)| == PostCount(limit)
    ensures forall k :: 0 <= k < PostCount(limit) ==> Schedule(Catalog.Resolve(limit), posts)[k] == (Catalog.Table[k], posts[k])
  {
    var steps := Catalog.Resolve(limit);
    OnlyLargestSkipped();
    assert forall i :: 0 <= i < |steps| ==> steps[i] == Catalog.Table[i];
    ScheduleDropsOnlyLast(steps, posts);
  }

  /** Upload traversal: the sizes posted are, in progression order, an initial
      segment of the resolved prefix less "512MB", each posted once. */
  lemma UploadTraversal(url: string, limit: string, posts: seq<Post>)
    requires |posts| >= Catalog.SizeCount
    ensures var t := MeasureUpload(url, limit, posts).Attempts();
      && 1 <= |t| <= PostCount(limit)
      && forall k :: 0 <= k < |t| ==> t[k] == Attempt(Catalog.Table[k], url, posts[k]) && t[k].size == Catalog.Progression[k]
  {
    ScheduleOfResolved(limit, posts);
    Catalog.TableFollowsProgression();
    var sched := Schedule(Catalog.Resolve(limit), posts);
    var t := Estimate(sched, url).Attempts();
    forall k | 0 <= k < |t|
      ensures t[k] == Attempt(Catalog.Table[k], url, posts[k]) && t[k].size == Catalog.Progression[k]
    {
      assert sched[k] == (Catalog.Table[k], posts[k]);
    }
  }

  /** Upload failure policy, both ways: the k-th post is the last one made
      exactly when it stops the walk (a success over the threshold, or a
      failure after an earlier success) or when no size is left to post. */
  lemma UploadFailurePolicy(url: string, limit: string, posts: seq<Post>)
    requires |posts| >= Catalog.SizeCount
    ensures var t := MeasureUpload(url, limit, posts).Attempts();
      forall k :: 0 <= k < |t| ==>
        (k == |t| - 1 <==> Stops(t[k], SucceededBefore(t, k)) || k == PostCount(limit) - 1)
  {
    ScheduleOfResolved(limit, posts);
    EstimateStopsExactly(Schedule(Catalog.Resolve(limit), posts), url);
  }

  /** The byte counts posted strictly increase along the attempts. */
  lemma UploadBytesIncrease(url: string, limit: string, posts: seq<Post>)
    requires |posts| >= Catalog.SizeCount
    ensures var t := MeasureUpload(url, limit, posts).Attempts();
      forall i, j :: 0 <= i < j < |t| && t[i].Measured? && t[j].Measured? ==> t[i].dataSize < t[j].dataSize
  {
    UploadTraversal(url, limit, posts);
    Catalog.UploadSizesIncrease();
  }

  /** When every post fails, the error payload lists one error entry for every
      size of the resolved prefix but "512MB". */
  lemma EveryPostFailing(url: string, limit: string, posts: seq<Post>)
    requires |posts| >= Catalog.SizeCount
    requires forall i :: 0 <= i < |posts| ==> !Succeeds(posts[i])
    ensures MeasureUpload(url, limit, posts).AllFailed?
    ensures MeasureUpload(url, limit, posts).message == "All upload tests failed"
    ensures |MeasureUpload(url, limit, posts).details| == PostCount(limit)
  {
    UploadTraversal(url, limit, posts);
    ScheduleOfResolved(limit, posts);
  }

  /** A failure before any success is only recorded: the next size is tried,
      and a slow success there becomes the representative. */
  lemma FailureBeforeSuccessContinues(url: string, limit: string, posts: seq<Post>)
    requires limit != "128KB" && |posts| >= Catalog.SizeCount
    requires posts[0] == Responded(500, 0.5) && posts[1] == Responded(200, 9.0)
    ensures MeasureUpload(url, limit, posts).Uploaded?
    ensures |MeasureUpload(url, limit, posts).allTests| == 2
    ensures MeasureUpload(url, limit, posts).sizeUsed == "256KB"
    ensures MeasureUpload(url, limit, posts).dataSize == 256 * 1024
  {
    UploadTraversal(url, limit, posts);
    UploadFailurePolicy(url, limit, posts);
    var t := MeasureUpload(url, limit, posts).Attempts();
    assert !t[0].Measured?;
    assert |t| > 1;
    assert t[1].Measured? && t[1].elapsed > Catalog.MaxTestDuration;
  }

  /** A failure after a success ends the walk, and the earlier success is
      reported. */
  lemma FailureAfterSuccessStops(url: string, limit: string, posts: seq<Post>)
    requires limit != "128KB" && limit != "256KB" && |posts| >= Catalog.SizeCount
    requires posts[0] == Responded(200, 1.0) && posts[1].Raised?
    ensures MeasureUpload(url, limit, posts).Uploaded?
    ensures |MeasureUpload(url, limit, posts).allTests| == 2
    ensures MeasureUpload(url, limit, posts).sizeUsed == "128KB"
    ensures MeasureUpload(url, limit, posts).elapsed == 1.0
  {
    UploadTraversal(url, limit, posts);
    UploadFailurePolicy(url, limit, posts);
    var r := MeasureUpload(url, limit, posts);
    var t := r.Attempts();
    assert t[0] == Attempt(Catalog.Table[0], url, posts[0]);
    assert t[0].Measured? && t[0].elapsed <= Catalog.MaxTestDuration;
    assert !Stops(t[0], SucceededBefore(t, 0));
    assert PostCount(limit) >= 3;
    assert |t| > 1;
    assert t[1] == Attempt(Catalog.Table[1], url, posts[1]);
    assert SucceededBefore(t, 1);
    assert |t| == 2;
    assert r.Uploaded?;
  }

  // ---------------------------------------------------------------------
  // The loop as the source writes it

  /** `pre` followed by the entries of `p`. */
  function Join(pre: seq<Entry>, p: Progress): Progress {
    Progress(pre + p.tests, p.final)
  }

  lemma JoinPrepend(pre: seq<Entry>, e: Entry, p: Progress)
    ensures Join(pre, Prepend(e, p)) == Join(pre + [e], p)
  {
    assert pre + ([e] + p.tests) == (pre + [e]) + p.tests;
  }

  /** One step of `Schedule` from position `i`. */
  lemma ScheduleStep(steps: seq<Catalog.SizeStep>, posts: seq<Post>, i: nat)
    requires i < |steps| <= |posts|
    ensures Schedule(steps[i..], posts[i..]) ==
      if steps[i].name in SkippedLabels then Schedule(steps[i + 1..], posts[i + 1..])
      else [(steps[i], posts[i])] + Schedule(steps[i + 1..], posts[i + 1..])
  {
    assert steps[i..][1..] == steps[i + 1..];
    assert posts[i..][1..] == posts[i + 1..];
  }

  /** The estimator written as the source's loop: skip the skipped labels,
      record each post's entry, keep the latest measurement, break on a slow
      measurement or on a failure once a measurement exists. It computes
      exactly what `Estimate` describes for the schedule of `steps`. */
  method EstimateLoop(steps: seq<Catalog.SizeStep>, posts: seq<Post>, url: string) returns (r: Report)
    requires |posts| >= |steps|
    ensures r == Estimate(Schedule(steps, posts), url)
  {
    var results: seq<Entry> := [];
    var final: Option<Entry> := None;
    ghost var sched := Schedule(steps, posts);
    var i := 0;
    assert steps[0..] == steps && posts[0..] == posts;
    assert [] + Walk(sched, url, None).tests == Walk(sched, url, None).tests;
    while i < |steps|
      invariant 0 <= i <= |steps|
      invariant final.Some? ==> final.value.Measured?
      invariant Walk(sched, url, None) == Join(results, Walk(Schedule(steps[i..], posts[i..]), url, final))
    {
      ScheduleStep(steps, posts, i);
      if steps[i].name in SkippedLabels {
        i := i + 1;
        continue;
      }
      var e := Attempt(steps[i], url, posts[i]);
      ghost var rest := Schedule(steps[i + 1..], posts[i + 1..]);
      assert ([(steps[i], posts[i])] + rest)[1..] == rest;
      ghost var next := if e.Measured? then Some(e) else final;
      JoinPrepend(results, e, Walk(rest, url, next));
      results := results + [e];
      if e.Measured? {
        final := Some(e);
        if e.elapsed > Catalog.MaxTestDuration {
          break;
        }
      } else if final.Some? {
        break;
      }
      i := i + 1;
    }
    if i == |steps| {
      assert steps[i..] == [];
      assert results + [] == results;
    }
    assert Walk(sched, url, None) == Progress(results, final);
    r := Conclude(Progress(results, final));
  }

  /** The upload tool as the source runs it, for a requested size limit. */
  method MeasureUploadLoop(url: string, limit: string, posts: seq<Post>) returns (r: Report)
    requires |posts| >= Catalog.SizeCount
    ensures r == MeasureUpload(url, limit, posts)
  {
    r := EstimateLoop(Catalog.Resolve(limit), posts, url);
  }
}
