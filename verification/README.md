# Verification of the event delivery pipeline

This project models the delivery path of the Go error-reporting SDK and proves what it keeps: a
bounded drop-oldest buffer fed by capture calls and drained by a worker loop and by any number of
`Flush` and `Close` callers, asynchronous senders under a semaphore, bounded retries with jittered
backoff, and the four smaller parts beside it (log gate, jitter source, fingerprint, attribute
sanitizer).

`dafny verify dfyconfig.toml` checks everything (Dafny 4.11).

## How the modules follow the program

| module | program part | form |
|---|---|---|
| `RingSpec`, `RingBuffer`, `RingHistory` | the circular buffer | sequence specification, a class over two arrays proved against it, theorems over whole histories and a method that carries a history out on the class |
| `Batching` | the drain loop of the worker | a method over the buffer and its optimality |
| `Protocol` | the worker, its callers and senders | a step relation over shared state and a list of threads |
| `ProtocolInvariant`, `ProtocolSafety`, `ProtocolWaits`, `ProtocolProgress`, `ProtocolCauses` | what every interleaving keeps, and why things happen in it | one inductive invariant and its consequences over all runs |
| `Outcomes` | the protocol's one-step sends as whole deliveries | counters and records tied to the reference policy, over steps and over runs |
| `Client` | the tail of a capture call | methods over the real buffer, tied to the protocol's steps |
| `Responses`, `Delivery`, `DeliveryLaws` | response classes, retry loop, backoff | methods proved against a reference policy, and the policy against an observer of its effects |
| `Words`, `JitterRNG`, `KnownWord` | the splitmix64 source | 64-bit words as integers below 2^64 |
| `LogThrottle` | the log gate | a class, and theorems over whole runs of calls |
| `Text`, `Fingerprint`, `Grouping` | the grouping key | methods proved against the byte stream they write, and what the stream keeps of an event |
| `Sanitizer`, `SanitizedPaths` | the attribute sanitizer | a walk over an arbitrary, possibly cyclic, value graph, and its output read along paths |

In the protocol a step is one thread crossing one access to shared state: a ring call, a semaphore or
wait-group operation, a channel operation, a counter update.  A context may expire at any moment, the
ticker may fire at any moment, and every encode or send may succeed, fail or panic.  The delivery
observers are panic-free, as worker.go:73-74 requires, except the queue report, whose panic is the way
the loop disables itself.  The state records, beside the real counters, where every event went
(`evicted`, `delivered`, `exhausted`) and how often each channel was closed.

## Results worth knowing about the code

- A `Flush` that returns nil is no promise about a batch another thread has popped and not handed to
  the wait group.  From every reachable state in which it waits with the wait group at zero it can
  return nil at once, and that means fully drained if and only if no such batch exists
  (`ProtocolWaits.FlushDrainsIff`); `ProtocolWaits.FlushCanMissABatch` is a run in which one does.  The
  same holds of the first `Close` and the batches of a concurrent `Flush`
  (`ProtocolWaits.CloseDrainsIff`, `ProtocolWaits.CloseCanMissABatch`).
- The backoff arithmetic is exact for every attempt number if and only if the first doubling fits in
  64 bits and `RetryMax` is at most the largest doubling of `BaseBackoff` that does
  (`Delivery.BackoffIsExactIff`).  The first wait is not capped by `RetryMax`: the cap bounds every wait
  that can be drawn if and only if `BaseBackoff` is at most `RetryMax` or is 2^63 - 1
  (`Delivery.CapBindsIff`); otherwise some state of the jitter source makes the first wait `BaseBackoff`
  itself (`Delivery.EveryWaitIsDrawn`).  A base of 2^63 - 1 turns every wait into zero
  (`Delivery.TopBaseNeverWaits`).
- A `Retry-After` in seconds is honoured exactly up to 9223372036 (section 4 of RFC 6585, section
  10.2.3 of RFC 9110); beyond, the product with a second wraps (`Responses.RetryAfterIsHonoured`).
- The throttle treats a window start equal to the zero time as unset, so the global cap fails for
  exactly the intervals that contain that instant (`LogThrottle.CapHoldsIff`).  The per-key spacing and
  the suppression accounting need no assumption about the clock at all.
- The sanitizer's own recursion ends exactly when every chain of plain pointers it can reach is finite
  and the default format ends wherever it is resorted to (`Sanitizer.HaltsIffWalkable`).  The depth bound
  cuts cycles through maps and slices, but not for the default format, which is handed whatever lies at
  depth ten (attributes.go:60): on a map that holds itself the walk ends if and only if the default
  format of that map does (`Sanitizer.SelfMapEndsIff`).  A pointer to itself is followed forever
  (`Sanitizer.SelfPointerNeverEnds`).  The comment at attributes.go:14 says that cyclic input is bounded.
- Among stacks of the same height the fingerprint stream identifies the group exactly when the type
  and the in-app functions and files hold no NUL byte (`Fingerprint.UnambiguousIff`).  Among all stacks
  it does so exactly for a single in-app frame without NULs (`Fingerprint.UniqueStackIff`), because a
  frame whose file holds NULs can stand for several; among all events see `Fingerprint.UniqueIff`.  No two
  events without NULs and of different groups share their bytes (`Fingerprint.StreamsIdentifyGroups`).

## Model

| member | source | states |
|---|---|---|
| `ProtocolInvariant.EffectConserves` | internal/transport/worker.go:191-265 | every step of every thread puts the events it takes from one place into another, none lost and none duplicated |
| `ProtocolInvariant.StepKeepsInv` | internal/transport/worker.go:145-351 | any step of any thread, and any new call, keeps the whole invariant: conservation, counters, bounds, tokens and wait-group counts, channel closings, no lost wakeup |
| `ProtocolInvariant.InvariantHolds` | internal/transport/worker.go:145-351 | the invariant holds in every state of every interleaving |
| `ProtocolSafety.ExactlyOnePlace` | client.go:285-317 | in every reachable state an event is somewhere if and only if it was captured, and then at exactly one place: in transit or in hand of one thread, in the ring, evicted, sent or exhausted |
| `ProtocolSafety.CountersBalance` | client.go:390-402 | captured = sent + exhausted drops + overflow drops + evictions not reported yet + events in the ring + events in hand |
| `ProtocolSafety.SendsAreBounded` | internal/transport/worker.go:209-221 | asynchronous sends never exceed MaxConcurrent, all sends never exceed it by more than the draining threads, and tokens and wait-group counts equal what live threads owe |
| `ProtocolSafety.HandsStaySmall` | internal/transport/worker.go:191-221 | no thread ever holds more than one batch |
| `ProtocolSafety.MemoryIsBounded` | internal/transport/worker.go:191-221 | the ring respects both limits in every state, and all events anywhere in the pipeline are bounded by the limits and the number of drainers and captures in progress |
| `ProtocolSafety.NoLostWakeup` | client.go:307-317 | if the loop waits at its select with no cue pending and no capture between push and decision, the ring holds less than a batch |
| `ProtocolSafety.ChannelsCloseOnce` | internal/transport/worker.go:145-188 | stop and stopped are each closed at most once and the loop disables itself at most once, in every run, also after a loop panic |
| `ProtocolSafety.LaterCloseIsInert` | internal/transport/worker.go:317-336 | after the first Close has finished, a later one returns nil and changes nothing; while it runs, a later one waits |
| `ProtocolWaits.SettledForever` | internal/transport/worker.go:233-265 | an event once evicted, sent or exhausted stays so |
| `ProtocolWaits.PushedForever` | internal/transport/worker.go:191-199 | an event past its push never returns to transit, and once out of the ring never returns to it |
| `ProtocolWaits.IdleMeansSettled` | internal/transport/worker.go:338-351 | when the wait group is at zero, an event out of the ring is settled or in the hand of another drainer that has not handed it off |
| `ProtocolWaits.ProgressHolds` | internal/transport/worker.go:309-336 | at every stage of a Flush or a first Close, what has been emptied and awaited so far covers all events pushed before the call |
| `ProtocolWaits.FlushReturnsNil` | internal/transport/worker.go:306-315 | when the wait behind a nil return ended, the events pushed before the call were evicted, sent or exhausted, except exactly those another thread had popped and not settled or handed off |
| `ProtocolWaits.FlushDrainsIff` | internal/transport/worker.go:309-315 | from every reachable state in which a Flush waits with the wait group at zero, nil can be returned, and then means fully drained if and only if no other thread holds such an event |
| `ProtocolWaits.FlushAloneDrains` | internal/transport/worker.go:306-315 | with no other drainer during the call, nil means fully drained |
| `ProtocolWaits.FlushCanMissABatch` | internal/transport/worker.go:309-315 | the input for the exception: a run in which Flush returns nil while the loop holds an event pushed before the call |
| `ProtocolWaits.CloseReturnsNil` | internal/transport/worker.go:317-336 | when the first Close returns nil the loop is gone, and when its wait ended the events pushed before it were settled, except exactly those a concurrent Flush had in hand |
| `ProtocolWaits.CloseDrainsIff` | internal/transport/worker.go:322-336 | from every reachable state in which the first Close waits without error and with the wait group at zero, nil can be returned, and then means fully drained if and only if no Flush holds such an event |
| `ProtocolWaits.CloseCanMissABatch` | internal/transport/worker.go:317-336 | the input for the exception: a run in which the first Close returns nil while a Flush holds an event pushed before |
| `ProtocolWaits.CloseAloneDrains` | internal/transport/worker.go:317-336 | with no Flush draining meanwhile, nil from the first Close means fully drained |
| `ProtocolCauses.CueDrains` | internal/transport/worker.go:176-186 | whatever cue the loop takes, tick, trigger or stop, it drains next, and once it is through every event pushed before the cue is out of the ring |
| `ProtocolCauses.DrainsInAnyCase` | internal/transport/worker.go:309-336 | Flush and the first Close empty the ring of everything pushed before them whether they return nil or an error: an expired context cuts the wait short, never the drain |
| `ProtocolCauses.LoopEndsForAReason` | internal/transport/worker.go:145-188 | a loop that has ended was told to stop or has panicked, is counted as disabled exactly if it has panicked, and stopped is closed exactly from its unwinding on |
| `ProtocolCauses.PanicDisables` | internal/transport/worker.go:147-158 | a panic in the loop is its end: it never selects again and ends counted as disabled, once |
| `ProtocolCauses.FlushReportIsGuarded` | internal/transport/worker.go:311-313 | in Flush a panicking queue report makes no difference |
| `ProtocolCauses.DispatchIsForced` | internal/transport/worker.go:206-221 | a batch in hand is sent asynchronously while a token is free, and on the drainer's own thread exactly when all MaxConcurrent are taken |
| `ProtocolCauses.BaseCancelledIff` | internal/transport/worker.go:317-336 | the context under which the loop sends is cancelled exactly when the first Close has finished |
| `Outcomes.ResolutionIsDelivery` | internal/transport/worker.go:226-265 | resolving a batch moves exactly the counters that the reports of its delivery move, records it as sent or exhausted accordingly, and changes no more |
| `Outcomes.RecordsListResolutions` | client.go:390-402 | over every run, what is recorded as sent is exactly the batches whose delivery succeeded, in order of resolution, likewise for those given up, and the counters are their sizes |
| `ProtocolProgress.EffectUsesUp` | internal/transport/worker.go:171-351 | every step of a thread other than a tick uses up a measure of the remaining work |
| `ProtocolProgress.SchedulesAreFinite` | internal/transport/worker.go:171-351 | without new calls and ticks every schedule ends, fair or not, within a number of steps bounded by its first state |
| `ProtocolProgress.NoWorkerIsStuck` | internal/transport/worker.go:209-230 | no capture call, drain or send ever stops halfway |
| `ProtocolProgress.NothingOutstanding` | internal/transport/worker.go:209-217 | at rest every token and every wait-group count has been returned |
| `ProtocolProgress.RestIsQuiescent` | client.go:285-317 | no deadlock: at rest all calls have returned, no sender is left, captured = sent + exhausted + overflow + ring length, and a live loop has no cue and less than a batch waiting |
| `Client.CaptureKeepsItsEvent` | client.go:285-317 | a capture never evicts its own event, reports exactly the events it pushes out, and leaves a cue exactly if one was there or a full batch waits |
| `Client.Pipeline.FinishAndEnqueue` | client.go:285-287 | over the real buffer, the tail of a capture has the effect of the protocol's capture steps taken in a row |
| `Client.Pipeline.Enqueue` | client.go:306-317 | pushes, counts overflow and wakes the worker as the protocol's steps do |
| `Client.Pipeline.Notify` | internal/transport/worker.go:162-169 | leaves the one-slot trigger full, whether or not it was, touching nothing else |
| `Client.Pipeline.PopNext` | internal/transport/worker.go:193-196 | a pop on the real buffer is the protocol's pop: the same batch in hand and the same ring left |
| `RingSpec.FirstFitOfSuffix` | internal/ringbuf/ringbuf.go:67-79 | evicting from an already shortened buffer starts where evicting from the whole history would, or later only because entries are gone |
| `RingSpec.BatchLenIsThreshold` | internal/ringbuf/ringbuf.go:83-108 | a prefix may go into one request if and only if it is no longer than the batch popped |
| `RingSpec.PopsUpToTheLimits` | internal/ringbuf/ringbuf.go:83-108 | a pop obeys both limits, a single entry excepted, and stops short of the end only where the next entry would break one |
| `RingSpec.EvictsUnderForce` | internal/ringbuf/ringbuf.go:50-81 | a push evicts nothing while both bounds hold, otherwise no entry more than it takes to meet both, the newest excepted |
| `RingBuffer.Buffer.EntryOf` | internal/ringbuf/ringbuf.go:10-12 | an entry costs its estimate, clamped to one byte at least |
| `RingBuffer.Buffer.constructor` | internal/ringbuf/ringbuf.go:30-48 | an empty buffer with no backing store, with the defaults for non-positive bounds and an absent size estimate |
| `RingBuffer.Buffer.Push` | internal/ringbuf/ringbuf.go:50-81 | keeps exactly the longest suffix of old contents plus the item that fits both bounds (the item alone if none does), returns the number evicted, grows the store only when full |
| `RingBuffer.EvictionIsFirstFit` | internal/ringbuf/ringbuf.go:62-80 | evicting first for the item bound and then for the byte bound reaches that longest suffix |
| `RingBuffer.Buffer.PopBatch` | internal/ringbuf/ringbuf.go:83-108 | returns and removes the longest prefix within the limits (one entry at least), in order |
| `RingBuffer.Buffer.DrainAll` | internal/ringbuf/ringbuf.go:110-123 | returns everything oldest first and leaves the buffer empty |
| `RingBuffer.Buffer.PopOldest` | internal/ringbuf/ringbuf.go:139-147 | removes the head entry, keeps the byte total exact and leaves the released slot zeroed |
| `RingBuffer.Buffer.Grow` | internal/ringbuf/ringbuf.go:149-169 | a strictly larger fresh store, never above the item bound, with the same contents and the head at zero |
| `RingBuffer.Buffer.Len` | internal/ringbuf/ringbuf.go:125-130 | the number of entries held, never above the item bound |
| `RingBuffer.Buffer.Bytes` | internal/ringbuf/ringbuf.go:132-137 | the sum of the sizes held, above the byte bound only for a single entry |
| `RingHistory.WindowOfHistory` | internal/ringbuf/ringbuf.go:53-123 | after any history of pushes, pops and drains the buffer is the newest part of the push history, within both bounds, and dropped + popped + held = pushed |
| `RingHistory.EvictionIsMinimal` | internal/ringbuf/ringbuf.go:53-81 | after any push in any history the window starts at the later of its old start and the longest fitting suffix of the whole push history, and the reported drops are exactly the move |
| `RingHistory.GrowthIsAmortised` | internal/ringbuf/ringbuf.go:149-169 | over any history the entries copied by growth are at most twice the pushes and fewer than twice the item bound |
| `RingHistory.CapacityFollowsPeak` | internal/ringbuf/ringbuf.go:149-169 | over any history the store is at most twice the most entries ever held, or eight, never above the item bound, never too small, and never shrinks |
| `RingHistory.Perform` | internal/ringbuf/ringbuf.go:53-123 | each call on the real buffer is one step of the history: contents, store length, copies made, drops reported and items handed out |
| `RingHistory.Replay` | internal/ringbuf/ringbuf.go:53-169 | any history carried out on a new real buffer ends in the state, with the store length and the number of copies, of which the theorems above speak |
| `Batching.DispatchReady` | internal/transport/worker.go:190-199 | with no concurrent pushes the drain ends with the ring empty, having dispatched its greedy batches in order |
| `Batching.BatchesAreACut` | internal/transport/worker.go:190-199 | the dispatched batches concatenate to exactly the contents in order, each within the limits or a single item |
| `Batching.FewestBatches` | internal/transport/worker.go:190-199 | no split of the contents into consecutive groups within the limits has fewer groups |
| `Delivery.Sender.ExpBackoff` | internal/transport/worker.go:292-304 | a wait between zero and the promised ceiling: one draw of the jitter source below the climbed ceiling where 64 bits hold it, zero without a draw where they do not |
| `Delivery.Sender.ClassifyRetry` | internal/transport/worker.go:267-290 | gives up exactly on permanent failures and at the retry limit, otherwise returns the policy's wait (rate limit or drawn), drawing at most once, and notes rate limits |
| `Delivery.Sender.DeliverBatch` | internal/transport/worker.go:232-265 | what it posts, how long it waits and what it reports is the reference policy's with the very waits drawn, for every stream of replies, context expiry and panics, and so is the state it leaves the jitter source in |
| `Delivery.Sender.SendWithRetry` | internal/transport/worker.go:223-230 | a panic is contained and the batch counted exhausted, so the whole policy is carried out in every case |
| `DeliveryLaws.WaitsStandBetweenPosts` | internal/transport/worker.go:241-264 | the waits taken are exactly those decided, each for its full length, and posts and waits alternate, a wait being last only if the context ended it all |
| `DeliveryLaws.DeliveriesAreAccepted` | internal/transport/worker.go:233-290 | an observer that follows the replies step by step accepts every delivery: each rate limit noted, each wait allowed, each give-up where the rules say so, each report where it belongs |
| `DeliveryLaws.DeliveryCountsItsBatch` | internal/transport/worker.go:226-265 | folded into the counters, a delivery adds its whole batch to the sent ones if it succeeds and to the dropped ones otherwise |
| `DeliveryLaws.BackoffIsFull` | internal/transport/worker.go:286-304 | with an ordinary configuration every wait from zero to the promised ceiling follows a transient failure in some state of the source, at every attempt |
| `DeliveryLaws.BackoffIsFullIff` | internal/transport/worker.go:286-304 | that holds at an attempt if and only if the doubling loop is exact there |
| `DeliveryLaws.OneDrawPerBackoff` | internal/transport/worker.go:267-290 | a backoff moves the jitter source by exactly one draw, a rate-limit wait by none and is the longer of floor and header |
| `Delivery.WaitsAreAllowed` | internal/transport/worker.go:267-304 | whatever is drawn, a wait after a rate limit is max(RateLimitBackoff, Retry-After) and any other lies between zero and the ceiling of its attempt |
| `Delivery.DeliveryReportsOnce` | internal/transport/worker.go:226-265 | at most MaxRetries + 1 sends, one retry notice per wait, and the batch reported exactly once, last, as sent if and only if the last attempt succeeded |
| `Delivery.SentIff` | internal/transport/worker.go:241-264 | a batch is sent exactly when an attempt within the limit succeeds and all earlier ones failed transiently with the context alive after their waits |
| `Delivery.BackoffIsBounded` | internal/transport/worker.go:292-304 | the waits that are not rate limits add up to at most BaseBackoff * (2^k - 1) and at most k * max(BaseBackoff, RetryMax) |
| `Delivery.BackoffIsExactIff` | internal/transport/worker.go:293-301 | the doubling loop yields BaseBackoff at attempt 0 and min(BaseBackoff * 2^n, RetryMax) after, with no overflow at any attempt, if and only if the configured range suffices |
| `Delivery.EveryWaitIsDrawn` | internal/transport/worker.go:302-303 | full jitter: every wait from zero to a ceiling that 64 bits hold is drawn from some state of the jitter source |
| `Delivery.TopBaseNeverWaits` | internal/transport/worker.go:293-304 | with BaseBackoff at 2^63 - 1 every wait is zero, at every attempt and in every state of the source |
| `Delivery.CapBindsIff` | internal/transport/worker.go:292-304 | over all states of the jitter source and all attempts, RetryMax bounds every wait if and only if BaseBackoff is at most RetryMax or is 2^63 - 1 |
| `Delivery.OrdinaryRangeSuffices` | internal/transport/worker.go:293-301 | the range suffices for BaseBackoff below 2^62 and RetryMax up to 2^62 |
| `Delivery.DefaultsRepair` | internal/transport/worker.go:40-64 | all eight numeric settings become usable, exactly the usable configurations are left alone, and no setting is replaced by its default that did not have to be |
| `Delivery.Sender.constructor` | internal/transport/worker.go:114-141 | the sender works with the repaired settings, which are valid, and with each setting that made sense as it was given |
| `Responses.ClassesOfStatus` | internal/transport/sender.go:124-143 | success exactly for 200 to 299, rate limited exactly for 429, transient exactly from 500 on, permanent exactly for the rest |
| `Responses.HeaderForms` | internal/transport/sender.go:145-160 | seconds in range and the time until a future date ask for exactly that, anything else for nothing, and seconds take precedence |
| `Responses.RateLimitWaitIsLeast` | internal/transport/worker.go:277-281 | the wait after a rate limit is the least that honours both the configured floor and the header |
| `Responses.RetryAfterIsHonoured` | internal/transport/sender.go:145-160 | after a 429 the wait is at least the configured floor, and at least the seconds asked for exactly when these are at most 9223372036 |
| `JitterRNG.MixIsBijective` | internal/transport/util.go:37-42 | the xor-shift and multiply finaliser has a two-sided inverse on 64-bit words |
| `JitterRNG.DrawsAreDistinct` | internal/transport/util.go:37-42 | two calls return the same word if and only if their numbers agree modulo 2^64, so any 2^64 calls return distinct words |
| `JitterRNG.EveryWordIsDrawn` | internal/transport/util.go:37-42 | every word is returned by one of the first 2^64 calls |
| `JitterRNG.SeedDrawing` | internal/transport/util.go:37-42 | every word is the next draw in some state of the source |
| `KnownWord.KnownWord` | internal/transport/util.go:37-42 | from state zero the first word is the one published for splitmix64, 0xE220A8397B1DCDAF |
| `KnownWord.KnownWait` | internal/transport/worker.go:302-303 | from the same state the first wait under a ceiling of 200 ms is that word's residue, 187565860 ns |
| `JitterRNG.StatesContinue` | internal/transport/util.go:37-38 | numbering calls from any later counter value continues the same sequence |
| `JitterRNG.Jitter.constructor` | internal/transport/util.go:31-35 | the counter starts odd and differs from the clock reading in the lowest bit at most |
| `JitterRNG.Jitter.Next` | internal/transport/util.go:37-42 | one call advances the counter by one step and returns that step's word |
| `JitterRNG.Jitter.Intn` | internal/transport/util.go:44-50 | a value in [0, n) for positive n, from exactly one draw; zero without a draw otherwise |
| `LogThrottle.Throttler.AdmitLine` | internal/logthrottle/logthrottle.go:134-166 | new state and verdict are those of one admission of the specification |
| `LogThrottle.GateDecision` | internal/logthrottle/logthrottle.go:140-165 | from the history alone: a line passes exactly when no line of its key passed less than a window ago and the current global window has room (and the clock is not before the zero time) |
| `LogThrottle.EveryCallIsAccountedFor` | internal/logthrottle/logthrottle.go:146-165 | per key, calls = emitted lines + reported suppressions + pending suppressions, in every run |
| `LogThrottle.ReportsTheSilence` | internal/logthrottle/logthrottle.go:152-165 | an emitted line reports exactly the calls of its key since the previous emitted line of the key, a suppressed one nothing |
| `LogThrottle.SilentSinceLastEmit` | internal/logthrottle/logthrottle.go:152-165 | none of those calls was emitted |
| `LogThrottle.RoomWhenQuiet` | internal/logthrottle/logthrottle.go:140-165 | the cap never costs a line that a sliding window would pass: a key that may log does log if fewer lines than the cap passed within the last global window |
| `LogThrottle.EmitsAreSpaced` | internal/logthrottle/logthrottle.go:152-163 | per key, two emitted lines are at least a window apart, whatever the clock does |
| `LogThrottle.WindowHonoursCap` | internal/logthrottle/logthrottle.go:141-164 | every global window lets through at most the cap |
| `LogThrottle.IntervalHonoursCap` | internal/logthrottle/logthrottle.go:141-164 | with a clock that never runs backwards, m window lengths let through at most (m + 1) times the cap |
| `LogThrottle.ZeroTimeDefeatsCap` | internal/logthrottle/logthrottle.go:141-144 | for any interval containing the zero time and any number there is a run that lets that many lines through |
| `LogThrottle.CapHoldsIff` | internal/logthrottle/logthrottle.go:141-164 | the interval bound holds over all such runs exactly for intervals without the zero time |
| `Text.EncodeIsInjective` | fingerprint.go:29-29 | different texts have different UTF-8 byte streams |
| `Text.SplitUndoesJoin` | fingerprint.go:21-27 | NUL-separated parts without NULs are recovered from their stream |
| `Fingerprint.NormalizeMessage` | fingerprint.go:34-53 | the rune loop computes: each maximal digit run becomes one 0, and outer white space goes |
| `Fingerprint.NormalizeIsIdempotent` | fingerprint.go:34-53 | the result holds digits only as lone 0s, has no outer white space, and is its own normal form |
| `Fingerprint.NumbersDoNotMatter` | fingerprint.go:34-36 | messages that differ in one number normalise to the same text |
| `Grouping.EveryMessageReads` | fingerprint.go:34-53 | every message is texts and numbers in turn, no two numbers touching |
| `Grouping.NumbersBecomeZeros` | fingerprint.go:34-51 | collapsing keeps every text and puts one zero for each number, in place |
| `Grouping.NormalizeKeepsText` | fingerprint.go:34-53 | normalising then takes away white space at the two ends and nothing else |
| `Grouping.NormalFormsAre` | fingerprint.go:34-53 | a message is its own normal form exactly when its digits are lone zeros and it has no outer white space |
| `Grouping.PlainMessagesStayApart` | fingerprint.go:34-53 | messages without digits and outer white space normalise alike only if they are equal |
| `Grouping.OtherFramesDoNotMatter` | fingerprint.go:12-15 | a frame of other code, anywhere in the stack, leaves the stream as it is |
| `Grouping.InAppFramesCount` | stacktrace.go:55-64 | an in-app frame, anywhere in the stack, is kept in its place and adds one to the height |
| `Grouping.LinesDoNotMatter` | fingerprint.go:12-15 | a frame that moves to another line leaves the stream as it is |
| `Grouping.StacksWriteAlikeIff` | fingerprint.go:19-27 | two stacks without NULs write the same bytes exactly when they agree on type, height, and every in-app function and file |
| `Grouping.MessagesStandAlone` | fingerprint.go:28-30 | a message without NULs shares its bytes with no stack, and with another message exactly when the normal forms agree |
| `Fingerprint.InAppFrames` | stacktrace.go:55-64 | keeps exactly the in-app frames, in order |
| `Fingerprint.ComputeFingerprint` | fingerprint.go:16-32 | the key is the hash of the event's stream: type and in-app functions and files, or the normalised message when there are none |
| `Fingerprint.StreamsIdentifyGroups` | fingerprint.go:10-32 | without NULs, two events write the same bytes if and only if they agree on type and ordered (function, file) list, or both fall back and their messages normalise alike; the two forms never coincide |
| `Fingerprint.NulSharesStream` | fingerprint.go:21-27 | every stack with a NUL in its type, a function or a file shares its bytes with a stack of the same height in another group |
| `Fingerprint.UnambiguousIff` | fingerprint.go:19-30 | among events with as many in-app frames, an event's bytes tell its group from all others if and only if it falls back to its message or its components hold no NUL |
| `Fingerprint.UniqueStackIff` | fingerprint.go:19-27 | among stacks of every height, a stack's bytes tell its group from all others if and only if it has one in-app frame and its components hold no NUL |
| `Fingerprint.UniqueIff` | fingerprint.go:16-32 | among all events: a message exactly when its normal form holds fewer than two NULs, a stack exactly when it has one in-app frame, no NUL, and bytes that spell no normal text |
| `Fingerprint.MessageMeetsStackIff` | fingerprint.go:19-30 | a fallback message writes the bytes of some stack if and only if its normalised text holds two NULs or more |
| `Fingerprint.NulMakesStacksCollide` | fingerprint.go:21-27 | an input for `Fingerprint.UniqueStackIff`: one frame with a NUL writes the bytes of two frames without |
| `Sanitizer.SanitizeValue` | attributes.go:52-120 | the recursion ends by the measure (10 - depth, pointer chain) and yields the sanitized form |
| `Sanitizer.SanitizeEntries` | attributes.go:72-83 | the loop over a map yields the sanitized entries, later ones overwriting earlier ones of the same key |
| `Sanitizer.SanitizeElements` | attributes.go:84-105 | the loop over a slice or an array yields the sanitized elements in order |
| `Sanitizer.SanitizeAttributes` | attributes.go:37-50 | an empty bag has no snapshot; any other is sanitized entry by entry |
| `SanitizedPaths.PathsAgree` | attributes.go:55-120 | within ten hops the output has exactly the paths of keys and indices that the Go value has, pointers followed, and at the end of each stands the sanitized form of what the Go value has there |
| `SanitizedPaths.NodeShape` | attributes.go:55-120 | fewer than ten containers deep a value is depicted by its kind: nil pointers as nil, scalars as they are, errors and Stringers by their text, maps with exactly their keys, lists with their length, the rest by the default format; at ten everything but nil is |
| `SanitizedPaths.PathsDepict` | attributes.go:55-120 | so at the end of every path of fewer than ten hops stands what depicts the Go value there |
| `SanitizedPaths.PointersAreTransparent` | attributes.go:112-116 | pointers leave no trace in the output above the depth bound |
| `SanitizedPaths.EntryOfKey` | attributes.go:106-111 | of several entries with the same key text the last one stands in the output |
| `Sanitizer.HaltsIffWalkable` | attributes.go:55-120 | the walk ends if and only if every reachable chain of plain pointers is finite, with any cycles through maps and slices, and the default format ends on every value it is asked to show |
| `Sanitizer.SelfMapEndsIff` | attributes.go:59-77 | on a map that holds itself the walk ends if and only if the default format of the map does |
| `Sanitizer.SelfPointerNeverEnds` | attributes.go:112-116 | a pointer to itself is never resolved |
| `Sanitizer.SanitizedIsOutput` | attributes.go:52-120 | the output holds only nil, scalars, string-keyed maps and lists, with plain text at the depth bound |
| `Sanitizer.SanitizedIsShallow` | attributes.go:14-15 | the output nests at most ten containers deep |
| `Sanitizer.OutputIsFixed` | attributes.go:55-120 | any output, however it is laid out in memory, is sanitized to itself |
| `Sanitizer.SanitizeTwice` | attributes.go:55-120 | sanitizing the result again at the same depth changes nothing |
| `Sanitizer.OutputCanBeStored` | attributes.go:41-50 | every output can be laid out in memory, so the two statements above speak about all of them |

## Left out

- HTTP, gzip, JSON encoding, HMAC, the hash function, timers and contexts: replies, encodings, context
  expiry and clock readings are inputs or free choices; the facts about fingerprints are about the
  bytes fed to the hash.
- strconv.Atoi, http.ParseTime and fmt.Sprintf: their results are inputs, and so is whether the default
  format ends; the only assumption is that it leaves a string as it is.
- Protocol.Take: threads are the entries of one list and a step is a value, because the interleaving of
  goroutines is the point; the sequential methods in `Client` and `Batching` tie single operations to the
  buffer's code.  Memory ordering of the Go atomics and locks is taken as sequentially consistent.
- ProtocolWaits.FlushReturnsNil: a batch that the loop, a Flush or a Close sends on its own thread is
  outside the wait group in the code, so the statement exempts it and so does the model.
- ProtocolProgress.SchedulesAreFinite: wall-clock bounds on Flush and Close and progress under endless
  captures are not stated; the drain can be kept busy by producers.
- Worker start-up: the loop thread exists from the first state, so a worker never started and a second
  Start are not modelled.
- Wait-group misuse panics of the sync package: the wait group is a counter that waiters read.
- Two reads of the ring length in enqueue: the first only feeds the queue gauges, which are left out with
  the OnQueue payload, OnDrop and onPanic callbacks and the worker's log lines.
- The capture path before the counter: scope, options, BeforeSend, identity hashing, title and debug
  output.
- Delivery.Sender.DeliverBatch: deliveries that run at once share the jitter source, so one may find the
  draws of others between its own; the contract is for one alone, and `Delivery.WaitsAreAllowed` with
  `Delivery.BackoffIsBounded` holds of whatever is drawn.
- RingBuffer.Buffer.Push: sizes and the byte total are mathematical integers, so a byte total beyond the
  range of Go's int is not modelled; nor are the mutex and the capacity hints of make.
- Fingerprint.NormalizeMessage: messages are the runes that ranging over the string yields, so invalid
  UTF-8 appears as the replacement rune; digit and space classes are parameters.
- Sanitizer.SanitizeValue: `Error` and `String` methods are total in the model, so a panic or an endless
  recursion inside them is not captured; nor is mutation of the caller's data during the walk.  The loops
  over maps and slices, written out per type in the code, are two methods here.
- LogThrottle.Throttler.AdmitLine: the sink, its panic guard and the capture of the caller's source line;
  times are integers with the zero time at 0, so the saturation of a time difference is not modelled.
- Merging and cloning of attributes, levels, users, wire format, configuration, build metadata, contrib
  integrations and the Prometheus exporter: single-branch or folding code with no state to keep.
