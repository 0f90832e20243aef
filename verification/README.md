# Verified models of lulu-ext's resilience, streaming and consumer loops

lulu-ext is a collection of Go plugins. This project models the parts of it that are algorithms of
their own, and proves what they keep over whole runs:

- `TokenMachine.dfy`, `TokenLimiter.dfy`: the token-bucket limiter, for any sequence of clock readings and
  any rounding of its floating-point operations. `TokenBucket.dfy`: the same limiter in exact arithmetic.
  `Doubles.dfy`, `TokenDoubles.dfy`: rounding to double precision, and the limiter under it.
- `SlidingWindow.dfy`: the ring of time buckets that the hystrix and sre breakers and the bbr limiter
  each carry a copy of, against a log of outcomes.
- `Hystrix.dfy`, `HystrixStates.dfy`, `HystrixWindow.dfy`, `Sre.dfy`, `Vegas.dfy`: the three circuit breakers.
- `SseEvent.dfy`, `SseStream.dfy`, `SseHistory.dfy`, `SseWire.dfy`, `SseSplitter.dfy`, `SseClient.dfy`,
  `SseWholeData.dfy`, `SseResponse.dfy`: server-sent events, from the stream's event loop over the wire
  format and the block reader to what a client that follows sections 9.2.5 and 9.2.6 of the WHATWG HTML
  Living Standard dispatches, and the way from the publisher to that client as a whole.
- `MqttAddrs.dfy`: address normalisation, with string splitting and 64-bit decimal numbers.
- `WebTransport.dfy`: the length-prefixed frame loop and the message format inside a frame.
- `KafkaBatch.dfy`: the batch consumer loop and its backoff.
- `Retry.dfy`: exponential backoff and the retry loop.
- `Floats.dfy`, `Int64.dfy`, `Bytes.dfy`: rounding and the conversion of floats to 64-bit integers, the
  range of those, and byte strings.

Objects that the Go code updates under a lock are classes; each method is proved to take the object's
abstract state to the value of a specification function, and the theorems are about runs of those
functions. `dafny verify dfyconfig.toml` checks everything.

Conventions. A method that holds a mutex is one atomic step. Clock readings, random draws, select
choices, generated identifiers and the answers of user callbacks are parameters. Times and durations
are unbounded integers in nanoseconds. In the token bucket every floating-point operation is rounded; the
rounding is a parameter, of which the theorems use only that it keeps order, leaves floats and integers up
to 2^53 alone and is off by at most one part in 2^53 (`Floats.Rounding`), and rounding to double precision
is one such (`Doubles.NearestIsRounding`). Whether a product is rounded before it is added, which Go leaves
to the platform, is a parameter too. Elsewhere floats are reals. The smoothing of the vegas breaker is exact
in integers because accepted round-trip times stay below 2^35. 64-bit behaviour is written out where it is
reached: port numbers (`MqttAddrs.Atoi`), the backoff shift (`KafkaBatch.BackoffSleep`), and the conversion
of a float to a duration in the token bucket's wait and the retry delay. Go leaves the result of that
conversion open when the value does not fit, so it is a parameter there and theorems are about every
conversion the language allows (`Floats.Conversion`).

Where the code and its own comments disagree, the model follows the code:

- The token bucket lets a call through without taking a token when what is missing converts to no wait, less
  than one nanosecond or, on x86-64, more than 64 bits of them. So with a burst of at least one token no rate
  has its rate bound guaranteed on every platform; with less it is where the wait for a full bucket is
  positive, since then no call ever passes (`TokenLimiter.RateBoundIff`). In double precision one token a
  second with burst one exceeds the bound (`TokenDoubles.RateOneFloods`), and so do the hundred with burst two
  hundred of the package example (`TokenDoubles.RateHundredFloods`); three a second do under any rounding
  (`TokenLimiter.RateThreeFloods`). The tokens taken do obey a bound (`TokenLimiter.RoundedBound`). In exact
  arithmetic some rates with bursts of a token or more would limit admissions
  (`TokenBucket.ExactRateBoundIff`).
- A ring rotation counts whole bucket durations since the previous rotation although buckets are indexed
  by absolute time, so it can be one tick off in either direction (`SlidingWindow.WindowRefinementIff`;
  `SlidingWindow.StaleRun` counts an outcome too many, `SlidingWindow.ErasedRun` one too few). Only without
  such damage does the hystrix breaker trip on the last ticks of its Closed period
  (`HystrixWindow.AgreesSinceIff`, `HystrixWindow.TripsOnWindowIff`).
- The hystrix breaker's trial request exists only if somebody asks for the state first
  (`Hystrix.NoTrialWithoutReport`, `Hystrix.RecoverableIff`), and every configuration has a run that leaves
  it rejecting for good (`Hystrix.EveryConfigurationCanDie`).
- A higher K makes the sre breaker stricter, not more lenient (`Sre.HigherKStricterIff`), and a window
  with outcomes is never reported closed (`Sre.ReportedMeaning`).
- A vegas breaker used through `Execute` can heal only on the outcomes still to come when it opens
  (`Vegas.RecoverableIff`), so it can get stuck at every alpha below 29998.999993, also when every request
  brings two outcomes as in the package example (`Vegas.StrandsIff`). The HalfOpen arm of its evaluation is
  never reached (`Vegas.StepConsistent`).
- The event reader passes over an LFLF when a CRLFCRLF comes later in the same buffer
  (`SseSplitter.ChunkIndependentIff`, with such a stream in `SseSplitter.AmbiguousExample`).
- Event comments are written without a colon, so a client can read them as fields
  (`SseClient.CommentIff`, `SseClient.CommentOnlyIff`, with failing events in `SseClient.CommentExamples`).
- Data is written in one piece unless split-data mode is on (`SseWholeData.WholeDataIff`).
- An event with neither data nor comment ends the response, although it may be logged for its name or
  retry field and then ends every replay that comes to it (`SseResponse.ReplayPrinted`, with a run in
  `SseResponse.BlankExample`).
- The documented backoff formula needs a factor of at least one, and values that fit in 64 bits
  (`Retry.FormulaIff`, with a failing configuration in `Retry.OverflowExample`); the package example leaves
  the factor at zero (`Retry.ZeroFactor`).

## Model

| member | source | states |
|---|---|---|
| TokenLimiter.New | ratelimit/tokenbucket/tokenbucket.go:46-68 | Rejects exactly the non-positive rates and bursts; otherwise a full bucket at the current time. |
| TokenLimiter.Limiter.Replenish | ratelimit/tokenbucket/tokenbucket.go:141-146 | The refilled amount, with elapsed seconds, product and sum rounded, within [0, burst]; `last` is the later of the two readings. |
| TokenLimiter.Limiter.TakeLocked | ratelimit/tokenbucket/tokenbucket.go:138-156 | The rounded computation takes the bucket to that of the specification and returns its wait; tokens stay in [0, burst] and `last` never goes back. |
| TokenLimiter.Limiter.Allow | ratelimit/tokenbucket/tokenbucket.go:83-97 | Admits exactly when not closed and the take's wait is not positive. |
| TokenLimiter.Limiter.Wait | ratelimit/tokenbucket/tokenbucket.go:100-124 | With any takes and closing by others between the tries: passes at the first of its takes without a wait, is limited at the first try that finds the limiter closed, and otherwise ends with the context; the bucket is that of all takes in order. |
| TokenLimiter.ConfigSound | ratelimit/tokenbucket/tokenbucket.go:141-155 | Whatever the rounding, time has passed exactly when the rounded seconds are positive, refilling takes nothing from an empty or full bucket, and a taken token leaves an amount in range. |
| TokenMachine.RunKeeps | ratelimit/tokenbucket/tokenbucket.go:138-156 | Over every run the amount stays in [0, burst] and `last` never goes back. |
| TokenMachine.Flood | ratelimit/tokenbucket/tokenbucket.go:148-155 | At one instant a bucket that lacks part of a token, but converts it to no wait, lets every call through and stays as it is. |
| TokenLimiter.RoundedBound | ratelimit/tokenbucket/tokenbucket.go:141-150 | Under any rounding and clock, tokens taken and left are at most those held and the worth of the elapsed time, up to six parts in 2^53 of that worth and two parts in 2^53 of the burst a call. |
| TokenLimiter.BelowOneIff | ratelimit/tokenbucket/tokenbucket.go:3-5 | With a burst below one token, on a given platform: at most burst + rate * elapsed admissions over all runs if and only if the wait computed for a full bucket is positive. |
| TokenLimiter.FullWaitMargin | ratelimit/tokenbucket/tokenbucket.go:153-155 | That wait is positive on every platform when the missing part of a token costs a nanosecond and 5 parts in 10^16, and stays clear of 2^63 nanoseconds. |
| TokenLimiter.FullWaitNeeds | ratelimit/tokenbucket/tokenbucket.go:153-155 | Where it is positive on every platform the missing part costs at least a nanosecond and less than 2^63. |
| TokenLimiter.AboveOneExceeds | ratelimit/tokenbucket/tokenbucket.go:3-5 | With a burst of at least one token, at any rate, a platform and a run with more than burst + rate * elapsed admissions. |
| TokenLimiter.RateBoundIff | ratelimit/tokenbucket/tokenbucket.go:3-5 | At most burst + rate * elapsed admissions over all runs and platforms, if and only if burst < 1 and the wait for a full bucket is positive on every platform. |
| TokenLimiter.RateThreeFloods | ratelimit/tokenbucket/tokenbucket.go:153-155 | At rate 3 and burst 1, under any rounding and conversion, every call passes at one instant, so the bound fails. |
| TokenLimiter.TinyRateFloods | ratelimit/tokenbucket/tokenbucket.go:153-155 | So it does at rate 10^-10 and burst 1 under any rounding, with the conversion of x86-64. |
| TokenLimiter.ExactTake | ratelimit/tokenbucket/tokenbucket.go:138-156 | Without rounding, a take in tokens is a take in nanoseconds of credit. |
| TokenLimiter.ExactRun | ratelimit/tokenbucket/tokenbucket.go:138-156 | Without rounding, runs, admissions and tokens taken are those of the credit form. |
| Doubles.NearestIsRounding | ratelimit/tokenbucket/tokenbucket.go:142-155 | Rounding to the nearest 53-bit float, ties to even, is a rounding in the sense of the theorems. |
| TokenDoubles.RateOneFloods | ratelimit/tokenbucket/tokenbucket.go:141-155 | In double precision, rate 1 and burst 1: after one call and ten more a tenth of a second apart every call passes, and the bound fails. |
| TokenDoubles.RateHundredFloods | ratelimit/tokenbucket/tokenbucket.go:9 | In double precision with products rounded, rate 100 and burst 200: after 200 calls at once and ten a millisecond apart every call passes, and the bound fails. |
| TokenBucket.TakeInTokens | ratelimit/tokenbucket/tokenbucket.go:138-156 | In exact arithmetic, a take in tokens and a take in nanoseconds of credit agree on bucket, wait and whether a token is taken. |
| TokenBucket.Conservation | ratelimit/tokenbucket/tokenbucket.go:141-150 | In exact arithmetic, over every run and with any clock: start credit plus arrivals equals end credit plus what was paid plus what was spilled. |
| TokenBucket.IntervalBound | ratelimit/tokenbucket/tokenbucket.go:141-150 | In exact arithmetic, tokens taken between two states cost at most a full bucket plus the elapsed time. |
| TokenBucket.FreeAdmissionIff | ratelimit/tokenbucket/tokenbucket.go:153-155 | In exact arithmetic, a call whose wait fits in 64 bits passes without a token exactly when less than one nanosecond of credit is missing. |
| TokenBucket.LimitingRun | ratelimit/tokenbucket/tokenbucket.go:83-156 | In exact arithmetic, at a limiting pace every admission takes a token, over every run. |
| TokenBucket.AdmissionBoundIff | ratelimit/tokenbucket/tokenbucket.go:83-156 | In exact arithmetic, admissions obey the rate bound over all runs and conversions if and only if the pace is limiting; otherwise some run floods. |
| TokenBucket.ExactRateBoundIff | ratelimit/tokenbucket/tokenbucket.go:3-5 | In exact arithmetic, at most burst + rate * elapsed admissions over all runs and conversions, if and only if 10^9/rate and burst*10^9/rate are whole and 10^9/rate is below 2^63, or burst < 1 and what is missing is between one and 2^63 nanoseconds. |
| TokenBucket.WaitSuffices | ratelimit/tokenbucket/tokenbucket.go:108-123 | In exact arithmetic, wherever a full bucket lets calls pass, retrying after the returned wait passes, and takes a token at a limiting pace. |
| TokenBucket.EventuallyAdmittedIff | ratelimit/tokenbucket/tokenbucket.go:100-124 | In exact arithmetic, a waiter can ever pass, whatever the conversion, exactly when a full bucket lets calls pass. |
| SlidingWindow.Buckets.constructor | circuitbreaker/sres/sres.go:94-101 | A fresh ring of empty buckets. |
| SlidingWindow.Buckets.Index | circuitbreaker/sres/sres.go:260-262 | The one slot whose age is zero at that time. |
| SlidingWindow.Buckets.RotateLocked | circuitbreaker/sres/sres.go:240-258 | The in-place loops compute the rotation of the specification. |
| SlidingWindow.Buckets.ClearPassed | circuitbreaker/sres/sres.go:252-256 | The index loop empties exactly the slots of age below `steps`. |
| SlidingWindow.Buckets.Record | circuitbreaker/sres/sres.go:163-176 | Adds one outcome to the slot of the current tick. |
| SlidingWindow.Buckets.Totals | circuitbreaker/sres/sres.go:231-238 | The sum over all buckets. |
| SlidingWindow.Buckets.Reset | circuitbreaker/hystrix/hystrix.go:314-318 | All buckets empty, the rotation time kept. |
| SlidingWindow.StepsAgainstTicks | circuitbreaker/hystrix/hystrix.go:290-312 | Ticks passed are `steps`, or one more exactly when `now` lies earlier in its bucket than the last rotation did. |
| SlidingWindow.ClearedAt | circuitbreaker/sres/sres.go:246-257 | A rotation empties exactly the slots of the last min(steps, n) ticks. |
| SlidingWindow.LoopSlot | circuitbreaker/sres/sres.go:252-255 | The index formula of pass i names the one slot of age steps - 1 - i. |
| SlidingWindow.IndexFormsAgree | ratelimit/bbr/bbr.go:219-226 | The bbr limiter's index form is the breakers'. |
| SlidingWindow.WindowRefinementIff | circuitbreaker/sres/sres.go:157-262 | Over every run under a monotone clock, the ring's totals are those of the last n ticks at every state if and only if no rotation did damage. |
| SlidingWindow.AlignedIsHarmless | circuitbreaker/sres/sres.go:240-262 | Runs whose calls are aligned with the last rotation do no damage. |
| SlidingWindow.ErasedSlot | circuitbreaker/sres/sres.go:246-257 | A rotation that empties the tick in use makes the totals lack exactly that tick's outcomes. |
| SlidingWindow.StaleSlot | circuitbreaker/sres/sres.go:246-257 | A rotation that leaves a new tick's slot alone makes the totals count exactly the outcomes of n ticks before as well. |
| SlidingWindow.StaleRun | circuitbreaker/sres/sres.go:240-262 | For every bucket longer than a nanosecond and every ring size, a run whose ring counts one outcome too many. |
| SlidingWindow.ErasedRun | circuitbreaker/sres/sres.go:240-262 | For every bucket longer than a nanosecond and every ring size, a run whose ring counts one outcome too few. |
| SlidingWindow.AlwaysRightIff | circuitbreaker/sres/sres.go:240-262 | The window is right over all runs exactly for one-nanosecond buckets. |
| Hystrix.HystrixBreaker.constructor | circuitbreaker/hystrix/hystrix.go:108-128 | Starts Closed with empty buckets. |
| Hystrix.HystrixBreaker.TryAllow | circuitbreaker/hystrix/hystrix.go:149-179 | New state and verdict of the switch with its fallthrough. |
| Hystrix.HystrixBreaker.MarkSuccess | circuitbreaker/hystrix/hystrix.go:182-200 | Rotation, recovery from HalfOpen, or a counted success with evaluation. |
| Hystrix.HystrixBreaker.MarkFailure | circuitbreaker/hystrix/hystrix.go:203-222 | Rotation, re-opening from HalfOpen with a new sleep window, or a counted failure with evaluation. |
| Hystrix.HystrixBreaker.RecoverLocked | circuitbreaker/hystrix/hystrix.go:189-195 | Closed with empty buckets and no trial. |
| Hystrix.HystrixBreaker.ReportState | circuitbreaker/hystrix/hystrix.go:241-252 | The lazy move to HalfOpen, without taking the trial slot. |
| Hystrix.HystrixBreaker.EvaluateLocked | circuitbreaker/hystrix/hystrix.go:264-288 | Opens exactly when Closed and the totals meet the trip condition. |
| Hystrix.TripInvariant | circuitbreaker/hystrix/hystrix.go:182-222 | In every reachable state Closed means the buckets do not meet the trip condition, and a trial in progress means HalfOpen. |
| Hystrix.TripEvidence | circuitbreaker/hystrix/hystrix.go:264-288 | Every Closed to Open step has the request volume, and the threshold's share of failures, marked in its own Closed period. |
| Hystrix.EnoughInProducts | circuitbreaker/hystrix/hystrix.go:275-284 | That share written as errorThreshold * requestVolumeThreshold. |
| HystrixWindow.AgreesSinceIff | circuitbreaker/hystrix/hystrix.go:182-318 | Over every run with ordered marks, at every state since the latest recovery the buckets' totals are the outcomes of the last n ticks, if and only if no rotation since then did damage. |
| HystrixWindow.CountedIsPeriod | circuitbreaker/hystrix/hystrix.go:182-222 | In Closed the buckets have counted the marks of this Closed period and no others. |
| HystrixWindow.TripsOnWindowIff | circuitbreaker/hystrix/hystrix.go:264-288 | Without such damage a mark in Closed trips the breaker if and only if the outcomes of this Closed period in the last n ticks reach the request volume with the threshold's share of errors. |
| Hystrix.OpenHolds | circuitbreaker/hystrix/hystrix.go:149-222 | Until the sleep window has passed nothing leaves Open and nothing is admitted, whatever marks arrive. |
| HystrixStates.OpenedAtIs | circuitbreaker/hystrix/hystrix.go:203-288 | Over every run an open breaker's `openedAt` is the clock reading of the mark that last opened it, a failed trial's first reading or a trip's second. |
| HystrixStates.SleepsAfterOpening | circuitbreaker/hystrix/hystrix.go:149-288 | Over every run, once a mark opens the breaker, from Closed or HalfOpen, it stays open and admits nothing until a sleep window after that mark, whatever calls come. |
| HystrixStates.Transitions | circuitbreaker/hystrix/hystrix.go:149-252 | Over every run which calls move the breaker: Closed only to Open and by a mark; Open to HalfOpen by a request or state query exactly from the sleep window after it opened on; HalfOpen to Closed by a success and to Open by a failure. |
| HystrixStates.AdmitsIff | circuitbreaker/hystrix/hystrix.go:149-179 | Over every run a request is admitted, at any time, if and only if the breaker was not shut and is Closed, or HalfOpen with no request since it went there. |
| Hystrix.SingleTrial | circuitbreaker/hystrix/hystrix.go:169-175 | Between entering and leaving HalfOpen at most one request is admitted, none once the slot is taken. |
| Hystrix.NoTrialWithoutReport | circuitbreaker/hystrix/hystrix.go:157-179 | In runs without state queries every admission happens in Closed. |
| Hystrix.DeadIsLost | circuitbreaker/hystrix/hystrix.go:157-179 | HalfOpen with the slot taken and nothing outstanding rejects in every contract-respecting future. |
| Hystrix.RecoverableIff | circuitbreaker/hystrix/hystrix.go:149-252 | Some contract-respecting future admits a request if and only if the breaker is not dead. |
| Hystrix.FirstCallDecides | circuitbreaker/hystrix/hystrix.go:149-288 | For every configuration, a contract-respecting run from the start to an open, idle breaker, at which after the sleep window a state query lets the next request in and a request first kills the breaker. |
| Hystrix.EveryConfigurationCanDie | circuitbreaker/hystrix/hystrix.go:149-288 | For every configuration, a contract-respecting run from the start to a breaker that is not closed and never admits again. |
| Sre.Verdict | circuitbreaker/sres/sres.go:131-153 | Accepts exactly when the window is empty or draw * (requests + 1) + K * errors is below the requests. |
| Sre.SreBreaker.constructor | circuitbreaker/sres/sres.go:84-101 | A breaker with an empty window that is not closed. |
| Sre.SreBreaker.Allow | circuitbreaker/sres/sres.go:119-154 | Rotates and accepts by that inequality on the rotated window; rejects when closed. |
| Sre.SreBreaker.MarkSuccess | circuitbreaker/sres/sres.go:157-165 | Records a request, keeping errors within requests in every bucket. |
| Sre.SreBreaker.MarkFailure | circuitbreaker/sres/sres.go:168-177 | Records a request and an error, keeping errors within requests. |
| Sre.SreBreaker.ReportState | circuitbreaker/sres/sres.go:198-215 | Of the window as it stands: Closed exactly when it is empty, Open exactly when K * errors reach the requests. |
| Sre.AcceptsIff | circuitbreaker/sres/sres.go:131-153 | The ratio test as that inequality between requests, errors and draw. |
| Sre.HealthyAcceptsIff | circuitbreaker/sres/sres.go:131-153 | Without errors exactly the draws below requests / (requests + 1) are accepted. |
| Sre.StateOf | circuitbreaker/sres/sres.go:198-215 | The reported state from requests and errors. |
| Sre.SuccessRaises | circuitbreaker/sres/sres.go:131-137 | Every success strictly raises the unclamped ratio. |
| Sre.FailureNeverRaisesIff | circuitbreaker/sres/sres.go:131-137 | A failure does not raise the ratio exactly when K * (successes + 1) >= 1. |
| Sre.FailuresMonotoneIff | circuitbreaker/sres/sres.go:131-137 | Failures never raise the ratio on any window if and only if K >= 1. |
| Sre.HigherKStricterIff | circuitbreaker/sres/sres.go:55-63 | A higher K accepts no draw that a lower K rejects, and rejects one that the lower K accepts exactly when there are errors and the lower K does not reject every draw. |
| Sre.HigherKExample | circuitbreaker/sres/sres.go:55-63 | A window and draw that K = 1 accepts and K = 2 rejects. |
| Sre.ReportedMeaning | circuitbreaker/sres/sres.go:195-215 | Open exactly when every draw is rejected, Closed exactly when every draw is accepted, which is exactly the empty window. |
| Sre.RejectsAllIff | circuitbreaker/sres/sres.go:139-153 | Every draw is rejected exactly when K * errors >= requests on a non-empty window. |
| Sre.CountsHold | circuitbreaker/sres/sres.go:157-177 | 0 <= errors <= requests in every bucket of every reachable state. |
| Sre.JudgedByWindow | circuitbreaker/sres/sres.go:119-137 | After a run without damage the totals are the outcomes of the last n ticks. |
| Sre.JudgedIff | circuitbreaker/sres/sres.go:119-153 | After a run without damage a request is accepted if and only if its draw meets the inequality on the outcomes of the last n ticks. |
| Vegas.VegasBreaker.constructor | circuitbreaker/vegas/vegas.go:94-113 | Closed, no samples. |
| Vegas.VegasBreaker.Allow | circuitbreaker/vegas/vegas.go:127-140 | Rejects exactly when closed or Open. |
| Vegas.VegasBreaker.MarkFailure | circuitbreaker/vegas/vegas.go:150-162 | Opens from HalfOpen without a sample, else feeds the maximum time and evaluates. |
| Vegas.VegasBreaker.RecordLatency | circuitbreaker/vegas/vegas.go:167-177 | Leaves HalfOpen, feeds the time and evaluates. |
| Vegas.VegasBreaker.UpdateLocked | circuitbreaker/vegas/vegas.go:215-234 | The float smoothing is (7 * current + rtt) / 8 in integers; implausible times change nothing. |
| Vegas.VegasBreaker.EvaluateLocked | circuitbreaker/vegas/vegas.go:237-266 | The state change by inflation, none before warm-up. |
| Vegas.Bounds | circuitbreaker/vegas/vegas.go:215-234 | In every reachable state the baseline is the minimum of the samples and minRTT <= base <= current <= maxRTT. |
| Vegas.StateMeaning | circuitbreaker/vegas/vegas.go:237-266 | Past warm-up Closed means inflation at most alpha, HalfOpen means below beta. |
| Vegas.StepConsistent | circuitbreaker/vegas/vegas.go:150-177 | That invariant step by step; the next outcome always leaves HalfOpen. |
| Vegas.MeasuresHold | circuitbreaker/vegas/vegas.go:215-234 | In every reachable state the baseline is the smallest sample and the current time their exponential smoothing. |
| Vegas.OpensIff | circuitbreaker/vegas/vegas.go:150-266 | Over every run an outcome opens a closed breaker, or a latency a half-open one, if and only if the samples reach the warm-up and their smoothing exceeds the smallest by more than alpha; otherwise it is Closed. |
| Vegas.HealsIff | circuitbreaker/vegas/vegas.go:150-266 | Over every run an outcome moves an open breaker to HalfOpen if and only if it leaves the smoothing above the smallest sample by less than beta. |
| Vegas.FailedTrial | circuitbreaker/vegas/vegas.go:154-157 | Over every run a failure in HalfOpen opens the breaker and changes no estimate. |
| Vegas.FailedTrialHolds | circuitbreaker/vegas/vegas.go:150-266 | Over every run, after it nothing is admitted until a later outcome leaves the smoothing above the smallest sample by less than beta. |
| Vegas.AllowsIff | circuitbreaker/vegas/vegas.go:127-140 | Over every run requests are admitted if and only if the breaker was not closed for good and is not open. |
| Vegas.GapShrinks | circuitbreaker/vegas/vegas.go:223-228 | The gap floor(7d/8) falls by at least one a sample until it is zero. |
| Vegas.HealsWithinGap | circuitbreaker/vegas/vegas.go:237-266 | gap + 2 latencies at the baseline end in Closed, from any state, for any alpha and beta. |
| Vegas.HealsExactly | circuitbreaker/vegas/vegas.go:237-266 | For beta <= alpha the state after each baseline latency on the way from Open to Closed. |
| Vegas.OpenIsWarm | circuitbreaker/vegas/vegas.go:215-266 | In every reachable state Open means past warm-up with estimates in range. |
| Vegas.BaselineIsBest | circuitbreaker/vegas/vegas.go:150-234 | No outcome at an open breaker leaves a smaller gap or a larger baseline than a latency at the baseline. |
| Vegas.RecoverableIff | circuitbreaker/vegas/vegas.go:127-197 | With any number of outcomes to come, each for an admitted request, an open breaker can ever admit again if and only if baseline latencies for all of them bring the inflation below beta. |
| Vegas.StrandsIff | circuitbreaker/vegas/vegas.go:127-266 | However many outcomes a request brings, some contract-respecting run from the start leaves the breaker not closed and beyond recovery if and only if alpha is below 29998.999993. |
| SseStream.StreamLoop.constructor | transport/sse/stream.go:39-53 | An empty stream. |
| SseStream.StreamLoop.AddSubscriber | transport/sse/stream.go:113-138 | Counts a subscriber and puts its registration in flight. |
| SseStream.StreamLoop.HandleRegister | transport/sse/stream.go:65-69 | Lists the subscriber and replays the log to it; keeps the lifecycle invariant. |
| SseStream.StreamLoop.ReplayTo | transport/sse/event_log.go:29-35 | Sends the log entries whose identifier is not below the subscriber's, in order. |
| SseStream.StreamLoop.HandleDeregister | transport/sse/stream.go:71-75 | Removes and closes a listed subscriber, ignores any other. |
| SseStream.StreamLoop.GetSubIndex | transport/sse/stream.go:104-111 | The first index of a subscriber, or -1 when it is not listed. |
| SseStream.StreamLoop.RemoveSubscriber | transport/sse/stream.go:147-155 | One subscriber less, its connection closed and its removal signalled. |
| SseStream.StreamLoop.HandleEvent | transport/sse/stream.go:81-87 | Logs content under a new identifier and sends the event, logged or not, to every listed subscriber. |
| SseStream.StreamLoop.Broadcast | transport/sse/stream.go:85-87 | One copy to every listed connection, none to others. |
| SseStream.StreamLoop.RemoveAllSubscribers | transport/sse/stream.go:157-167 | Every listed connection closed and every removal signalled once, nobody listed. |
| SseStream.StreamLoop.HandleQuit | transport/sse/stream.go:89-91 | The end of the loop. |
| SseStream.LifecycleHolds | transport/sse/stream.go:61-167 | In every reachable state listed subscribers are distinct with open connections, no connection was closed twice or sent to after closing, each closed one was signalled once, and until quit the count is listed plus in flight. |
| SseHistory.LogIsIssued | transport/sse/event_log.go:13-21 | Over every run the log is the published events with an identifier, data, name or retry, in order, each changed in its identifier only. |
| SseHistory.SentIs | transport/sse/stream.go:63-93 | Over every run a registered subscriber has been sent the published events from its Last-Event-ID on and then every event published while it was listed, comments included; it is listed until it deregisters or the stream quits, and then closed and signalled once. |
| SseHistory.JoinedWith | transport/sse/stream.go:113-138 | A subscriber's identifier is the one it joined with. |
| SseEvent.LessIff | transport/sse/event_log.go:28-35 | The order of identifiers: the first byte that differs decides, a proper prefix comes first. |
| SseStream.ReplayIsSuffix | transport/sse/event_log.go:29-35 | On a log with increasing identifiers the replay filter is a suffix, for any Last-Event-ID. |
| SseStream.NoGap | transport/sse/stream.go:61-95 | Over every run each registered subscriber has been sent the logged events from its start to the current end, in order, once each. |
| SseStream.SentFromPosition | transport/sse/event_log.go:14-35 | That start is the place of its Last-Event-ID in the log at registration. |
| SseStream.SentPiecesHold | transport/sse/stream.go:61-95 | Every subscriber ever registered, also one that is gone, has been sent a piece of the log that begins at its start. |
| SseStream.Reconnect | transport/sse/event_log.go:28-35 | What a client received of its old connection and, after its last event, of the new one make up the log from where it first started. |
| SseStream.FirstConnect | transport/sse/event_log.go:28-35 | Without an identifier the whole log is sent. |
| SseSplitter.ContainsDoubleNewline | transport/sse/event.go:141-154 | The two scans find the first CRLFCRLF, else the first LFLF. |
| SseSplitter.SplitData | transport/sse/event.go:94-106 | The split decision; a token before the end of the stream consumes at least two bytes. |
| SseSplitter.BlocksBySplit | transport/sse/event.go:94-127 | The blocks of a complete stream are the tokens of repeated final split calls. |
| SseSplitter.DrainBySplit | transport/sse/event.go:94-127 | The blocks available before more is read are the tokens of repeated split calls. |
| SseSplitter.ScanCovers | transport/sse/event.go:94-127 | However the stream is cut, the blocks and the separators between them make it up; a last block without a separator is not empty and holds none. |
| SseSplitter.ChunkIndependentIff | transport/sse/event.go:141-154 | The blocks are the same for every cutting of the stream if and only if every separator found is the earliest. |
| SseSplitter.AmbiguousExample | transport/sse/event.go:141-154 | LF LF CR LF CR LF is one block when read at once, and two empty ones when read in pieces of two and four bytes. |
| SseSplitter.OneKindUnambiguous | transport/sse/event.go:139-154 | Streams free of CRLFCRLF, or free of LFLF, are unambiguous. |
| SseWire.WriteData | transport/sse/event.go:156-176 | The bytes of a field line, and of a bare line. |
| SseWire.WriteEvent | transport/sse/http.go:115-143 | The bytes of one event in either data mode. |
| SseWire.ServeEvents | transport/sse/http.go:106-145 | The response is the print of the received events that are not expired, up to the first with neither data nor comment. |
| SseWire.ServedAt | transport/sse/http.go:106-113 | An event is printed, at the place the unexpired ones before it leave it, exactly when it has not expired and no event up to it has neither data nor comment. |
| SseWire.ServedSize | transport/sse/http.go:106-113 | Nothing else is printed. |
| SseWire.SplitPieces | transport/sse/http.go:119-122 | The data pieces have no line feed, and joined with line feeds give the data back. |
| SseWire.NoCrlfCrlf | transport/sse/http.go:106-145 | Printed events contain no CRLFCRLF. |
| SseWire.OneBlockPerEvent | transport/sse/event.go:94-106 | However the print of events with data or a comment is cut, the reader yields one block per event, in order, the event's lines. |
| SseClient.RoundTripIff | transport/sse/http.go:115-143 | In split-data mode a conforming client, whatever its last identifier, dispatches exactly the published events with data, with data, kind and identifier, if and only if every event is intact: those with data as `CommentIff` says, those without as the first part of `CommentOnlyIff` says. |
| SseClient.Unshifted | transport/sse/http.go:115-143 | Where no comment is an identifier, a client that has dispatched the published events and further ones under distinct identifiers has dispatched no further ones and read every event intact. |
| SseClient.EventDispatches | transport/sse/http.go:115-143 | What one event, whatever its comment, makes a client with empty buffers dispatch, and the identifier it leaves. |
| SseClient.CommentIff | transport/sse/http.go:139-141 | An event with data arrives as published if and only if its identifier has no NUL and its comment is not data, nor another kind or identifier. |
| SseClient.CommentOnlyIff | transport/sse/http.go:139-141 | A comment alone dispatches nothing if and only if it is not data, and changes nothing if and only if it is no new identifier either. |
| SseClient.CommentExamples | transport/sse/event.go:156-176 | A comment that is dispatched as a message, alone and with data. |
| SseClient.RetriesArrive | transport/sse/http.go:134-136 | A client finds on the wire exactly the retry values of the events with data, in order, besides comments that read as such. |
| SseWholeData.WholeDataIff | transport/sse/http.go:123-129 | Without split-data mode an event arrives as published if and only if it is intact and its data is one line that does not start with a colon, or its comment is data that puts back exactly what is lost. |
| SseWholeData.WholeDataExamples | transport/sse/http.go:123-129 | Data that does not arrive, and the comment that makes it arrive. |
| SseResponse.ReplayPrinted | transport/sse/http.go:106-109 | A client reconnecting at entry k is printed the log from there up to the first entry with neither data nor comment, all of it if and only if there is none. |
| SseResponse.BlankExample | transport/sse/http.go:106-109 | A run that logs data, a name alone and data: a client that reconnects at the first is printed that one only. |
| SseResponse.SentToClientIff | transport/sse/http.go:93-145 | Where no printed comment is an identifier, a client dispatches exactly the data events sent, if and only if the printed events are intact and no data comes after the response ended. |
| SseResponse.IdCommentExample | transport/sse/http.go:139-141 | With an `id` comment a made-up message can stand in for a lost event. |
| SseResponse.EndToEnd | transport/sse/http.go:93-145 | Over every run a client reading a registered subscriber's response dispatches exactly the data events published from its Last-Event-ID on, if the printed events are intact and no data comes after the response ended; given either the other is necessary, and both are where no printed comment is an identifier and nothing published since has the client's own. |
| MqttAddrs.SetAddrs | broker/mqtt/utils.go:15-85 | The result is what the addresses yield, in order, or tcp://127.0.0.1:1883; an address yields scheme, host and port by where its first `://` and colon cut it. |
| MqttAddrs.YieldsIff | broker/mqtt/utils.go:18-76 | Every address yields exactly one thing, and the parser computes it. |
| MqttAddrs.Answered | broker/mqtt/utils.go:18-85 | Every list of addresses has an answer. |
| MqttAddrs.DefaultPorts | broker/mqtt/utils.go:53-67 | Without a port, tcp has 1883, ssl 8883 and ws 80. |
| MqttAddrs.PlainHost | broker/mqtt/utils.go:30-72 | A bare host and host:port are read as tcp. |
| MqttAddrs.IgnoredIff | broker/mqtt/utils.go:18-51 | An address makes no difference, wherever it stands, if and only if it is empty or has a scheme other than tcp, ssl and ws. |
| MqttAddrs.AtoiIs | broker/mqtt/utils.go:71 | A port is read as the nearest 64-bit number, and as zero if it is not a number, unless its digits leave 64 bits first. |
| MqttAddrs.NumberRoundTrip | broker/mqtt/utils.go:71-74 | Printing and parsing a 64-bit port are inverse. |
| MqttAddrs.ShowParses | broker/mqtt/utils.go:27-74 | A shown address parses back to itself. |
| MqttAddrs.ParsedIsProper | broker/mqtt/utils.go:27-74 | What is accepted has a known scheme, a host without colon and a 64-bit port. |
| MqttAddrs.NormalisedCanonical | broker/mqtt/utils.go:74-84 | The result is non-empty and all canonical. |
| MqttAddrs.Idempotent | broker/mqtt/utils.go:15-85 | Normalising twice is normalising once; the fixed lists are exactly the non-empty lists of canonical addresses. |
| WebTransport.Marshal | transport/webtransport/message.go:13-20 | The only bytes that decode to the message, four more than its body. |
| WebTransport.Unmarshal | transport/webtransport/message.go:22-33 | The only message whose encoding the bytes are, its kind little-endian in the first four; an error exactly below four bytes. |
| WebTransport.MessageRoundTrip | transport/webtransport/message.go:13-33 | Mutually inverse on all messages and on all byte strings of at least four bytes. |
| WebTransport.ReadFrame | transport/webtransport/server.go:299-326 | One pass of the loop reads one frame, whatever the buffer held. |
| WebTransport.ServeSession | transport/webtransport/server.go:296-333 | Dispatches exactly the non-empty bodies of the complete frames, in order. |
| WebTransport.StreamReads | transport/webtransport/server.go:299-332 | Reading the concatenation of frames and an unfinished one gives those frames. |
| WebTransport.Announces | transport/webtransport/server.go:299-313 | The first byte of a length is the least significant one. |
| WebTransport.ReadStreams | transport/webtransport/server.go:299-332 | Every byte string is the concatenation of its frames and its unfinished tail. |
| WebTransport.EndToEnd | transport/webtransport/server.go:296-333 | Framed messages, even cut off, are decoded as those messages, in order. |
| KafkaBatch.HandleMessage | broker/kafka/subscriber.go:269-315 | Fails exactly when decoding, the handler or an automatic commit fails; acknowledges exactly when auto-ack is on and nothing fails. |
| KafkaBatch.HandleBatch | broker/kafka/subscriber.go:261-267 | Acknowledges exactly the messages of the batch that succeed, in order. |
| KafkaBatch.ProcessBatches | broker/kafka/subscriber.go:149-220 | For every sequence of turns: handled plus buffered is fetched, in order; each batch is handed over at a tick or by the fetch that fills it, and is with those before it all that was fetched until then; a tick leaves nothing behind; acknowledged are exactly the successes; attempt counters. |
| KafkaBatch.AttemptsCount | broker/kafka/subscriber.go:189-208 | The attempt counters are the failures of their kind since the last fetch, up to six. |
| KafkaBatch.BackoffSleep | broker/kafka/subscriber.go:320-339 | Half the capped power and a draw below half of it more; between half the minimum and the maximum even when the shift overflows. |
| Retry.Delay | retry/retry.go:216-228 | Max if Initial * Factor^attempt, or a value after a multiplication before it, exceeds Max, and else that value, for any conversion. |
| Retry.AllFitIff | retry/retry.go:216-228 | Every value the loop converts fits in 64 bits if and only if Initial is zero, Factor is at most one, or Initial and Max are positive and some grown value lies above Max and below 2^63. |
| Retry.FormulaIff | retry/retry.go:203-228 | Initial * Factor^attempt capped at Max, for every attempt and conversion, if and only if the values keep within 64 bits as `AllFitIff` says and there is no cap, Factor >= 1, or the first grown value is within Max. |
| Retry.FormedBound | retry/retry.go:216-228 | With Initial <= Max the loop forms no value above (Max + 1) * Factor. |
| Retry.CapKeepsFit | retry/retry.go:216-228 | So every value fits when (Max + 1) * Factor is below 2^63. |
| Retry.OverflowExample | retry/retry.go:216-228 | A configuration whose first delay is negative on x86-64. |
| Retry.DelayRises | retry/retry.go:216-228 | For Factor >= 1 later attempts never wait less, and never more than Max. |
| Retry.ZeroFactor | retry/retry.go:15-21 | A zero factor means no delay from the second retry on. |
| Retry.Do | retry/retry.go:126-176 | How the loop ends and after how many calls; the time slept, each sleep being the round's wait cut to what remains and to an interruption; at most maxAttempts calls, sleeps within maxTotalWait and total time within it plus the last call; the meaning of every error. |
| Retry.EndsOnce | retry/retry.go:126-176 | For given rounds there is one way only for the loop to end. |

## Left out

- TokenBucket: float rounding, which `TokenLimiter` has.
- TokenLimiter: the exponent range of floats, the saturation of time differences at 2^63 nanoseconds, and the `notify` channel, which nothing ever sends on.
- TokenLimiter.RateBoundIff: is about all roundings of `Floats.Rounding` together, so for a burst of at least one token it names for every rate a rounding that breaks the bound, and double precision is settled for the configurations of `TokenDoubles`, `RateThreeFloods` and `TinyRateFloods` only. It gives the condition for bursts below one token through the wait computed for a full bucket; `FullWaitMargin` and `FullWaitNeeds` bound it by the configuration from both sides, up to 5 parts in 10^16.
- TokenBucket.WaitSuffices: does not say that a retry after the returned wait passes when operations are rounded.
- SlidingWindow: a bucket duration of zero, on which the code divides by zero, and times before 1970, on which its index is negative.
- Hystrix: the clock may be read again when a mark trips the breaker; the second reading is a parameter. `Execute` is its parts in sequence. The error rate is a real quotient.
- Sre: float rounding of the ratio.
- The bbr limiter apart from its ring: its estimate is the requests a second counted in the ring, at most the window divided by the smallest average latency of a bucket and at least a configured minimum, and its inflight limit is the threshold's share of that, at least one; a minimum over the ring's cells and a counter.
- SseStream: streams without replay, the 64-event capacity of a connection (a send is a step that happens when it can), streams that are not created automatically, which have no `removed` channel, and `Notify`, which shares one event between streams.
- SseStream.Reconnect: assumes that generated identifiers increase, as version 7 UUIDs are meant to.
- SseSplitter: the scanner's limit on buffer size.
- SseClient: what a client does with the reconnection time, byte order marks and UTF-8 decoding; events with line breaks outside their data, or carriage returns in it.
- SseResponse: events that expire before they are printed; `SseWire.ServeEvents` has them.
- MqttAddrs: the client identifier and the paho client.
- WebTransport: handler lookup, codecs and the HTTP/3 stream itself; the body of an unreadable frame.
- KafkaBatch: offsets in the broker, tracing spans, and the panic of a ticker with a non-positive interval.
- Retry: fixed and linear backoff and the jitter functions, which are single expressions; negative factors; float rounding of the grown delay; the wait of a round is arbitrary in `Retry.Do`.
- The other brokers and transports, registries, configuration sources, codecs and loggers wrap libraries and have no algorithm of their own.
