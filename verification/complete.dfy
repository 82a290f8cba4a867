/**
  The complete test: download, then upload, then one latency probe, then the
  jitter probes, composed into one report. No step is isolated from the
  others: an exception escaping any of them ends the whole test.
 */
module CompleteTest {
  import opened Wrappers
  import Catalog
  import Download
  import Upload
  import Jitter

  const Methodology: string := "Incremental file size approach with 8-second threshold"

  /** The number of jitter round trips the complete test asks for. */
  const JitterSamples: int := 5

  datatype CompleteReport = CompleteReport(
    timestamp: real,
    download: Download.Report,
    upload: Upload.Report,
    latency: Jitter.LatencyReport,
    jitter: Jitter.JitterReport,
    methodology: string)

  /** What the network yields during one complete test: the download fetches
      and upload posts by position in the progression, the latency probe, and
      the jitter probes in order. */
  datatype Network = Network(
    fetches: seq<Download.Fetch>,
    posts: seq<Upload.Post>,
    latencyProbe: Jitter.Probe,
    jitterProbes: seq<Jitter.Probe>)

  /** The network holds an answer for every size of the progression and every
      jitter probe: all the complete test can ask of it, whatever the limit. */
  predicate Answers(net: Network) {
    && |net.fetches| >= Catalog.SizeCount
    && |net.posts| >= Catalog.SizeCount
    && |net.jitterProbes| >= JitterSamples
  }

  /** The complete test, `now` being the clock read after the four
      measurements. */
  function RunCompleteTest(maxSize: string, uploadUrl: string, latencyUrl: string, net: Network, now: real): (r: Result<CompleteReport, string>)
    requires Answers(net)
    ensures r.Success? <==>
      && Download.MeasureDownload(maxSize, net.fetches).Success?
      && Jitter.MeasureLatency(latencyUrl, net.latencyProbe).Success?
      && Jitter.MeasureJitter(latencyUrl, JitterSamples, net.jitterProbes).Success?
    ensures Download.MeasureDownload(maxSize, net.fetches).Failure? ==>
      r == Failure(Download.MeasureDownload(maxSize, net.fetches).error)
    ensures r.Success? ==>
      && r.value.timestamp == now
      && r.value.download == Download.MeasureDownload(maxSize, net.fetches).value
      && r.value.upload == Upload.MeasureUpload(uploadUrl, maxSize, net.posts)
      && r.value.latency == Jitter.MeasureLatency(latencyUrl, net.latencyProbe).value
      && r.value.jitter == Jitter.MeasureJitter(latencyUrl, JitterSamples, net.jitterProbes).value
      && r.value.methodology == Methodology
  {
    match Download.MeasureDownload(maxSize, net.fetches)
    case Failure(m) => Failure(m)
    case Success(d) =>
      var u := Upload.MeasureUpload(uploadUrl, maxSize, net.posts);
      match Jitter.MeasureLatency(latencyUrl, net.latencyProbe)
      case Failure(m) => Failure(m)
      case Success(l) =>
        match Jitter.MeasureJitter(latencyUrl, JitterSamples, net.jitterProbes)
        case Failure(m) => Failure(m)
        case Success(j) => Success(CompleteReport(now, d, u, l, j, Methodology))
  }

  /** An upload in which every post fails does not stop the complete test:
      when no fetch, probe or round trip raises, the report still holds all
      four sections, the upload one being the error payload. */
  lemma UploadFailureStillReports(maxSize: string, uploadUrl: string, latencyUrl: string, net: Network, now: real)
    requires Answers(net)
    requires forall i :: 0 <= i < |net.fetches| ==> !Download.Faults(net.fetches[i])
    requires net.latencyProbe.Answered?
    requires forall i :: 0 <= i < |net.jitterProbes| ==> net.jitterProbes[i].Answered?
    requires forall i :: 0 <= i < |net.posts| ==> !Upload.Succeeds(net.posts[i])
    ensures RunCompleteTest(maxSize, uploadUrl, latencyUrl, net, now).Success?
    ensures RunCompleteTest(maxSize, uploadUrl, latencyUrl, net, now).value.upload.AllFailed?
  {
    Upload.EveryPostFailing(uploadUrl, maxSize, net.posts);
  }

  /** A download that raises ends the complete test with that exception,
      whatever the other measurements would have given. */
  lemma DownloadFaultAbortsReport(maxSize: string, uploadUrl: string, latencyUrl: string, net: Network, now: real)
    requires Answers(net)
    requires net.fetches[0].Raised?
    ensures RunCompleteTest(maxSize, uploadUrl, latencyUrl, net, now) == Failure(net.fetches[0].message)
  {
    assert Download.Reaches(net.fetches, 0);
    Download.RunFailsIffFaultReached(Catalog.Resolve(maxSize), net.fetches);
  }
}
