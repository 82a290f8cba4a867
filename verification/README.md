# Incremental internet speed test — Dafny model

This project models the measurement logic of an internet speed-test service
that exposes four tools (download speed, upload speed, latency, jitter) and a
combined test. Throughput is estimated by *incremental sizing*: payloads of a
fixed 13-step progression (128KB … 512MB) are transferred in increasing order
until one transfer takes longer than 8 seconds, and the last measurement is
reported as the representative speed, in decimal megabits per second.

The network and the clock are replaced by oracle sequences: for each
position of the progression, what a streamed GET (`Download.Fetch`) or a POST
(`Upload.Post`) would yield — bytes and elapsed seconds, an HTTP status and
elapsed seconds, or an exception — and for the latency and jitter probes the
elapsed seconds of each GET (`Jitter.Probe`). Every operation is then a pure
function of its arguments, and the download and upload loops of the source
are also written as methods that are proved to compute exactly the same
result.

Modules (one per component):

- `Wrappers` (wrappers.dfy): `Option` and `Result`.
- `Catalog` (catalog.dfy): the progression, the per-size upload byte counts and
  download files (one `SizeStep` table), the 8-second threshold, and the
  resolution of a requested size limit to a prefix of the progression.
- `Speed` (speed.dfy): the megabit-per-second formula and its division by zero.
- `Download` (download.dfy): the download walk, its stopping rule, its report.
- `Upload` (upload.dfy): the upload walk as a state machine over post outcomes,
  the skipped sizes, the failure policy, the report or the error payload.
- `Jitter` (jitter.dfy): the latency probe, round-trip collection, average and
  jitter (mean absolute deviation).
- `CompleteTest` (complete.dfy): the composition of the four measurements.

Behaviour that the code fixes and the model follows:

- The download walk inspects no HTTP status and catches nothing: the bytes of
  any response body count as a measurement, and a client exception, or a zero
  elapsed time dividing the byte count, escapes from the tool.
- Within the upload walk, every exception raised by the post or by the speed
  division is caught and recorded. A zero elapsed time with status 200 makes
  the speed division raise inside the `try`, so it is recorded as an exception
  entry ("float division by zero") like a transport failure.
- The upload skip list names "256MB" and "512MB"; "256MB" is not a label of the
  progression, so only "512MB" is ever skipped (`Upload.OnlyLargestSkipped`).
- The combined test isolates nothing: a download or latency/jitter exception
  ends it, so no partial report is produced
  (`CompleteTest.DownloadFaultAbortsReport`).
  An upload in which every post fails is not an exception but an error
  payload, so that case does yield a full report
  (`CompleteTest.UploadFailureStillReports`).
- A jitter probe that raises, or a non-positive sample count (the averaging
  then divides zero by zero), ends the jitter tool with an exception, not with
  an error result.

## Model

| member | source | states |
|---|---|---|
| `Catalog.TableFollowsProgression` | main.py:37-91 | the size table has thirteen entries, one per progression label, in progression order, so the upload-size and download-URL lookups of a walked label never fail |
| `Catalog.TableDownloadFiles` | main.py:37-51 | each size's download file is the host followed by the label and ".zip" |
| `Catalog.ProgressionDistinct` | main.py:77-91 | no label occurs twice in the progression |
| `Catalog.IndexOf` | main.py:111 | the position found holds the label and no earlier position does (first occurrence, as `list.index`) |
| `Catalog.MaxIndex` | main.py:110-114 | a known label resolves to its own position; an unknown label resolves to the last position instead of raising |
| `Catalog.Resolve` | main.py:110-118 | the sizes walked are a non-empty prefix of the progression; for a known label the prefix ends at that label and contains it only there; for an unknown label it is the whole progression |
| `Catalog.ResolveDepth` | main.py:110-118 | a limit other than "128KB" walks at least two sizes, and one other than "128KB" and "256KB" at least three |
| `Catalog.DefaultResolvesToHundredMegabytes` | main.py:96 | the default limit "100MB" (also at main.py:167 and 320) resolves to the first eleven sizes, ending at "100MB" |
| `Catalog.UploadSizesIncrease` | main.py:57-91 | upload byte counts strictly increase along the progression |
| `Catalog.UploadSizesBinary` | main.py:57-71 | every upload byte count is a positive multiple of 1024 |
| `Speed.Mbps` | main.py:135-137 | the division raises exactly when elapsed is zero; otherwise speed × elapsed × 1,000,000 = bytes × 8 |
| `Speed.DecimalMegabits` | main.py:135-137 | 10,000,000 bytes in 1 s is 80 Mbps |
| `Speed.BinaryPayloadDecimalUnit` | main.py:214-216 | the 1,048,576-byte "1MB" upload in 1 s is 8.388608 Mbps, binary bytes against decimal megabits |
| `Speed.MbpsMonotonic` | main.py:135-137 | for positive durations the speed grows with bytes and falls with elapsed time |
| `Download.Measure` | main.py:119-145 | a fetch raises exactly when the client raised or elapsed is zero; otherwise the sample carries the label, its file, the received byte count, the elapsed time and the speed of those bytes over that time |
| `Download.Run` | main.py:118-153 | a completed walk records at least one and at most one sample per step |
| `Download.RunFailsIffFaultReached` | main.py:118-153 | the walk raises if and only if some faulty fetch is reached (all earlier fetches measured within the threshold), and then with that fetch's exception |
| `Download.RunSamplesPrefix` | main.py:118-153 | a completed walk's i-th sample is the measurement of the i-th step; every sample but the last is within 8 s; fewer samples than steps only when the last exceeds 8 s |
| `Download.Summary` | main.py:155-162 | the report's size, speed, elapsed time and byte count are those of the last sample, and `all_tests` is every sample |
| `Download.Estimate` | main.py:106-162 | for any steps: raises exactly when a fault is reached; otherwise one sample per attempted step in order, stop exactly after the first sample over 8 s, figures of the last sample |
| `Download.MeasureDownload` | main.py:96-162 | for a requested limit: raises exactly when a faulty fetch is reached, with that fetch's exception; otherwise the attempted sizes are an initial segment of the resolved prefix in progression order, the walk stops exactly after the first sample over 8 s, and the report's size, speed, elapsed time and byte count are those of the last sample |
| `Download.WalkLoop` | main.py:106-153 | the source's for/break loop computes exactly the walk `Run`, and its running `final_result` is the last sample appended |
| `Download.EstimateLoop` | main.py:106-162 | the loop followed by the report built from `final_result` computes exactly `Estimate` |
| `Download.MeasureDownloadLoop` | main.py:96-162 | the loop over the resolved prefix computes exactly `MeasureDownload` |
| `Download.SteadyLinkWalksWholePrefix` | main.py:118-153 | when every fetch takes 0.1 s the whole prefix is fetched and the representative is the requested label, or "512MB" for an unknown label |
| `Download.SlowThirdFetchStops` | main.py:148-162 | for any sizes, when the third fetch is the first over 8 s (whatever its duration) exactly three are fetched and the third size is reported with that fetch's elapsed time |
| `Download.SlowThirdFetchIsRepresentative` | main.py:148-162 | when the third fetch is the first over 8 s, exactly three sizes are fetched and "512KB" is reported with that fetch's elapsed time |
| `Upload.Attempt` | main.py:196-258 | a post is a measurement exactly when status is 200 and elapsed is non-zero, with the label's binary byte count and its speed; otherwise an error entry with the HTTP status or the exception (including the zero-division) |
| `Upload.Schedule` | main.py:191-194 | the sizes posted never include a skipped label |
| `Upload.Walk` | main.py:191-258 | the walk records at most one entry per scheduled size, and at least one when any size is scheduled |
| `Upload.LatestIsMeasurement` | main.py:226-229 | `final_result` only ever holds a measurement |
| `Upload.LatestIsLastMeasured` | main.py:226-229 | `final_result` is the last measurement recorded, or unchanged when none was |
| `Upload.LatestSomeIffSucceeded` | main.py:244-245 | `if final_result` holds at step k exactly when some earlier post succeeded |
| `Upload.WalkFinalIsLatest` | main.py:226-229 | the walk's final result is the last measurement among its entries |
| `Upload.WalkFollowsSchedule` | main.py:191-258 | the entries are the attempts of a prefix of the schedule in order; no entry but the last stops the walk; the walk ends early only when its last entry stops it |
| `Upload.WalkAttempts` | main.py:196-229 | the k-th entry recorded is the outcome of posting the k-th scheduled size |
| `Upload.WalkGoesOn` | main.py:231-258 | no entry but the last is a success over 8 s or a failure after an earlier success |
| `Upload.WalkEndsEarly` | main.py:231-258 | when fewer entries than scheduled sizes are recorded, the last one is a success over 8 s or a failure after an earlier success |
| `Upload.FailedWalkIsExhaustive` | main.py:243-258 | when no post succeeds every scheduled size is tried |
| `Upload.Conclude` | main.py:260-271 | the error payload with message "All upload tests failed" and every attempt is returned exactly when there is no final result; otherwise the final result's figures with every attempt |
| `Upload.Estimate` | main.py:179-271 | for any schedule: the error payload exactly when no entry is a measurement, and then every size was tried; otherwise the figures of the last measurement; entries are the attempts in order |
| `Upload.MeasureUpload` | main.py:165-271 | for a requested limit the attempts are non-empty, bounded by the sizes scheduled, and never "512MB" |
| `Upload.EstimateStopsExactly` | main.py:231-258 | an entry is the last one exactly when it stops the walk (a success over 8 s, or a failure after an earlier success) or no size is left |
| `Upload.OnlyLargestSkipped` | main.py:192-194 | "256MB" is no progression label; of the progression only its last size, "512MB", is skipped |
| `Upload.ScheduleDropsOnlyLast` | main.py:191-194 | when at most the last size is skipped, the schedule keeps every other size with its own outcome |
| `Upload.PostCount` | main.py:183-194 | the number of sizes posted is the resolved prefix length, one less when the prefix is the whole progression |
| `Upload.ScheduleOfResolved` | main.py:183-194 | the sizes posted for a limit are the resolved prefix less "512MB", in order, each with the outcome at its own position |
| `Upload.UploadTraversal` | main.py:183-196 | the k-th attempt is the post of the k-th progression size, for an initial segment of the sizes posted |
| `Upload.UploadFailurePolicy` | main.py:213-258 | the k-th post is the last one made if and only if it is a success over 8 s, a failure after an earlier success, or the last size to post |
| `Upload.UploadBytesIncrease` | main.py:57-71 | the byte counts of successive measurements strictly increase |
| `Upload.EveryPostFailing` | main.py:260-271 | when every post fails (`Upload.Succeeds` is false: an exception, a non-200 status, or a 200 after zero time) the result is the "All upload tests failed" payload listing one entry per size posted |
| `Upload.FailureBeforeSuccessContinues` | main.py:234-245 | an HTTP error on the first size is recorded and the next size is tried; a slow success there is reported |
| `Upload.FailureAfterSuccessStops` | main.py:247-258 | an exception after a success ends the walk and the earlier success is reported |
| `Upload.EstimateLoop` | main.py:179-271 | the source's loop with `continue` on skipped labels and both `break`s computes exactly `Estimate` of the schedule |
| `Upload.MeasureUploadLoop` | main.py:165-271 | the loop over the resolved prefix computes exactly `MeasureUpload` |
| `Jitter.MeasureLatency` | main.py:275-286 | the probe raises exactly when the GET raised; otherwise latency in ms divided by 1000 is the elapsed seconds |
| `Jitter.Collect` | main.py:294-299 | collection raises exactly when some probe raised; otherwise one millisecond value per probe, in order |
| `Jitter.MeasureJitter` | main.py:290-315 | raises exactly when the sample count is not positive (division by zero) or a probe raised; otherwise average × n is the sum of the samples, jitter × n is the sum of absolute deviations from the average, and jitter is non-negative |
| `Jitter.MeanDeviationNonNegative` | main.py:304-307 | jitter is never negative |
| `Jitter.DeviationSumZeroIff` | main.py:304-307 | the absolute deviations from m sum to zero exactly when every sample equals m |
| `Jitter.MeanDeviationZeroIffConstant` | main.py:301-307 | jitter is zero if and only if all samples are equal |
| `Jitter.FiveSampleExample` | main.py:301-307 | samples 100, 102, 98, 100, 100 ms give average 100 ms and jitter 0.8 ms |
| `Jitter.ShiftMovesAverageKeepsJitter` | main.py:301-307 | adding the same delay to every sample moves the average by it and leaves jitter unchanged |
| `Jitter.AverageAndJitterBounded` | main.py:301-307 | samples within [lo, hi] have an average within [lo, hi] and jitter at most hi − lo |
| `Jitter.SteadyLatencyHasNoJitter` | main.py:290-307 | identical round trips report that time in ms as the average and zero jitter |
| `CompleteTest.RunCompleteTest` | main.py:318-353 | the combined test succeeds exactly when the download, the latency probe and the five jitter probes do; its sections are the four tools' results and the timestamp is the clock read last; a download exception is the test's exception |
| `CompleteTest.UploadFailureStillReports` | main.py:341-353 | when no fetch or probe raises, an upload whose every post fails still yields a full report whose upload section is the error payload |
| `CompleteTest.DownloadFaultAbortsReport` | main.py:341-353 | a download whose first fetch raises ends the combined test with that exception |

## Left out

- HTTP client, `async`/`await`, streaming in 1024-byte chunks and `time.time()`: replaced by the oracle sequences; the byte count of a fetch is the oracle's total of received bytes.
- The oracle sequences must hold an answer for every size of the progression (`requires |fs| >= Catalog.SizeCount` and similar), whatever the limit; answers past the resolved prefix are never read. The source has no such demand because the network always answers.
- `round(x, 2)` on the reported speed, elapsed time, latency and jitter: floating-point rounding; the model reports the exact real values.
- Floating-point arithmetic in general: elapsed times and speeds are exact reals, so effects such as a tiny non-zero duration underflowing are not modelled.
- Tool registration with the MCP framework and `mcp.run()` (main.py:30-33, 94-95, 356-358): framework glue.
- The uploaded payload `b"x" * data_size`, its multipart encoding and the 60-second timeout: the outcome of the post is the oracle's; a timeout is one of its exceptions.
- The formatted messages "HTTP Error: {status}" and "Exception: {str(e)}": kept as the structured `Upload.Problem` carrying the status or the exception text.
- The constant `"unit"` fields of the result dictionaries, and the upload and latency URL defaults (main.py:53-54): constant data with no behaviour. The default size limit "100MB" (main.py:96, 167, 320) is kept as `Catalog.DefaultSizeLimit`, but the tools take the limit as an explicit argument.
- Exceptions the upload tool does not catch: opening the HTTP client (main.py:190), building the payload `b"x" * data_size` (main.py:197, e.g. out of memory) and any `BaseException` that is not an `Exception` (such as a cancellation) escape from it. The model's `Upload.MeasureUpload` always returns a report, and `CompleteTest.RunCompleteTest`'s success condition relies on that.
