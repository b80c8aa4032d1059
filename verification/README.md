# A verified model of the activity path

The desktop agent watches the active window, coalesces what it sees into events, buffers them in SQLite and posts
them to the API, which queues them and has workers insert them into the database. This project models that path in
Dafny, together with the screen stream and the timed safety machines around it, and proves what holds in every run.

| file | what it models |
|---|---|
| Events, HeartbeatQueue, Flood, FloodDisjoint | heartbeat coalescing: the stateful per-stream queue and the in-place gap-filling pass |
| Bytes, Frame, DeltaWire, DeltaEncoder, DeltaPixels, DeltaMirror | frames and screen deltas: wire format, a decoder for it, the stateful encoder, what it does to pixels and bytes, and a viewer that follows it |
| Breaker, Retry | the circuit breaker, the retry loop, and `Post`, which composes them |
| Numbered, Buffer, ActivityQueue, ActivityWorker, Pipeline | store and forward: batcher, SQLite buffer, uploader, leased queue, workers, and the end-to-end protocol |
| Screenshots | the screenshot flush, step by step, with concurrent flushers and crashes |
| HeartbeatBuffer, Watchdog, RotatingLog, Afk, TtlStore, AuthGuard | write-behind heartbeats, crash limiter, log rotation, AFK detection, file-backed TTL store and the auth cache on it |

How it is built. A class of the source is a class here, with the source's fields. The methods of `Queue`, `Client`,
`Encoder`, `RotatingWriter`, `EventLoop` and `RedisService` are proved equal to step functions on a plain value (their
`View()`), and the properties are lemmas about runs of those steps. For each of them some lemma says what the steps
compute in terms of their inputs alone: timestamps and durations (`HeartbeatQueue.CoalescesExactly`,
`Flood.PairExactly`), pixels and payload bytes (`DeltaPixels`, `Frame.FrameBytes`), the operations of a history
(`Breaker.AdmitsExactly`, `TtlStore.GetReturnsLastSet`, `ActivityQueue.TableIsInsertions`), clock readings
(`Retry.ScheduleExactly`, `Watchdog.RestartsExactly`). The methods of `WriteBatcher`, `Uploader`,
`Database`, `Worker`, `HeartbeatBufferService` and `AgentAuthGuard` state their effect in the functions the protocols
are made of. Protocols between parties (`Pipeline`, `Screenshots`, `ActivityQueue`, the interleaved flushes of
`HeartbeatBuffer`) are state machines whose steps are the atomic actions of one party; any interleaving is a run.
`Pipeline.FlushIsPipelineRun` and `ActivityWorker.DrainIsQueueRun` connect the objects to them. Clocks, network replies, disk
faults, random jitter and scheduling delays are parameters of the steps and arbitrary unless a lemma says otherwise.
Go integers are unbounded here except where the source narrows or wraps them: the `uint32` hash sum, idle seconds and
frame length, the `uint16` grid and record lengths, and byte packing are written out.

## What came out differently from the comments

* The order "upload, save metadata, delete row, remove file" is there so that a crash never loses a screenshot
  (s3.go:10-12, uploader.go:252-255). It does not, once two uploads get the same object key: the key is the user and a
  time in milliseconds (agent.service.ts:188-189), and an S3 or B2 bucket overwrites. `Screenshots.LostExactlyByDanger`
  gives the exact condition on a PUT, `CollidingKeysLose` a run, and `RefusingIsHarmless` and `OwnKeysAreHarmless` the
  two ways to be safe.
* The 300 s of the auth guard run from the moment of caching; the lookups behind it are older by the time they took. A
  miss that was in flight at a revocation refills the cache after it: exactly such validations outlive a saved
  revocation (`AuthGuard.AdmittedAfterRevocation`). Nothing in the repository performs the `redis.del` the guard's
  comment asks for; after a deactivation the cache admits for exactly 300 s and the time of one miss
  (`AuthGuard.AdmittedAfterDeactivation`).
* A full frame stores the new hashes even when its JPEG fails or its send does, so an unchanged screen is then never
  sent (`DeltaMirror.LostFullFrameIsNotRepaired`). `FrameMirrorsExactly` says when a frame leaves the viewer right.
* "giving up after breaker tripped" (client.go:184) does not bound a Post to the failures the breaker allows: a turn
  that starts after the back-off sends again (`Retry.PostFromClosedExactly`, `LateWakeSendsMore`).
* A threshold commit commits the boundary heartbeat twice. `HeartbeatQueue.CommitsOverlapExactly` says which
  consecutive commits overlap, and `CommitsAreBounded` by how much at most.
* "Allow probe" (client.go:134) admits two callers per half-open stretch, not one (`Breaker.StretchAdmitsAtMostTwo`).
* `ParseFrame` adds and compares in `uint32`. For announced lengths from 2^32-8 on it slices with reversed bounds where
  the TypeScript reader returns null (`Frame.ParsersAgreeExactly`, `Frame.BuildThenParse`).
* The watchdog counts from the first crash of a tumbling window; the true bound is eight crashes in any closed
  60 s, and it is reached (`Watchdog.RateHolds`, `Watchdog.EightIsReached`).
* Overlapping heartbeat flushes can overwrite a newer `last_seen_at` with an older one
  (`HeartbeatBuffer.OverlapCanGoBack`, with the exact condition).
* `loadFromDisk` drops an entry at its exact expiry instant, which `get` would still serve: the one and only
  difference from an ideal TTL map (`TtlStore.StoreIsIdeal`).
* `Flood` keeps disjoint input disjoint exactly when no event that follows a merged-away one starts within the merge
  window of that one's old start (`FloodDisjoint.FloodDisjointExactly`): the merged-away event stays in the slice with
  zero duration, and the next gap is measured from it. Its comment promises output that is always sorted
  (merge.go:71); with a negative duration it need not be (`Flood.NegativeDurationsCanUnsort`), but nothing produces
  one, and outside its own unit tests nothing calls `Flood`.

## Model

| member | source | states |
|---|---|---|
| Events.HeartbeatMerge | apps/agent/internal/heartbeat/merge.go:40-61 | merges in place exactly when the data agree and the heartbeat starts within [start, end + pulsetime]; then the start stays and the end is the later of both ends; otherwise `last` is untouched |
| Events.MergeCoversBoth | apps/agent/internal/heartbeat/merge.go:40-61 | a merge covers both inputs, and what it adds lies in a gap of at most pulsetime between them |
| HeartbeatQueue.Queue.constructor | apps/agent/internal/heartbeat/merge.go:136-153 | every stream starts empty |
| HeartbeatQueue.Queue.Push | apps/agent/internal/heartbeat/merge.go:162-194 | the pushed stream takes its step (`PushCommitsExactly` says which, in timestamps); no other stream notices |
| HeartbeatQueue.Queue.Flush | apps/agent/internal/heartbeat/merge.go:197-205 | commits and forgets the cached event of that stream if it has positive duration; no other stream notices |
| HeartbeatQueue.Queue.FlushAll | apps/agent/internal/heartbeat/merge.go:208-218 | whatever order the map is ranged in, each stream ends as if flushed alone, and nothing stays cached |
| HeartbeatQueue.PushCommitsExactly | apps/agent/internal/heartbeat/merge.go:162-194 | a push onto a cached event commits exactly if the data differ, or it starts outside [start, end + pulsetime], or the merged span reaches the commit interval or an hour; and what is then committed and cached |
| HeartbeatQueue.LatestEndIsMaximum | apps/agent/internal/heartbeat/merge.go:50-60 | the end that coalesced heartbeats reach is the latest of their ends |
| HeartbeatQueue.CoalescesExactly | apps/agent/internal/heartbeat/merge.go:162-194 | over any number of pushes: nothing is committed if and only if all have equal data, each starts no earlier than the first and at most its pulsetime after the latest end so far, and the whole span stays below the commit interval and an hour; then one event from the first start to the latest end is cached |
| HeartbeatQueue.SessionIsOneEvent | apps/agent/internal/heartbeat/merge.go:162-205 | so one session of heartbeats, from an empty queue, becomes one event, which a flush commits |
| HeartbeatQueue.PushedIsKept | apps/agent/internal/heartbeat/merge.go:162-218 | in every run a pushed positive-duration heartbeat lies inside a committed or the cached event with its data |
| HeartbeatQueue.NothingIsLost | apps/agent/internal/heartbeat/merge.go:162-218 | after `FlushAll` every pushed positive-duration heartbeat lies inside a committed event with its data |
| HeartbeatQueue.NothingIsInvented | apps/agent/internal/heartbeat/merge.go:162-218 | each instant of a commit lies in a pushed heartbeat of that data or in a gap of at most pulsetime between two |
| HeartbeatQueue.EndsByLatestPush | apps/agent/internal/heartbeat/merge.go:162-194 | with timestamps in order nothing ends more than D after the latest push |
| HeartbeatQueue.CommitsAreBounded | apps/agent/internal/heartbeat/merge.go:155-194 | every commit is shorter than min(commitInterval, 1 h) + pulsetime + D, and consecutive ones overlap by at most D |
| HeartbeatQueue.TotalIsBounded | apps/agent/internal/heartbeat/merge.go:155-194 | k commits total at most their span plus (k-1)·D |
| HeartbeatQueue.BoundaryHeartbeatIsCommittedTwice | apps/agent/internal/heartbeat/merge.go:174-184 | whenever a merging push reaches the threshold, its heartbeat is inside the commit and seeds the next event |
| HeartbeatQueue.CommitsOverlapExactly | apps/agent/internal/heartbeat/merge.go:162-218 | for every run and every two consecutive commits, the exact condition under which they overlap, for commits by a push and by a flush |
| HeartbeatQueue.RunConcat | apps/agent/internal/heartbeat/merge.go:136-218 | a run may be cut anywhere |
| HeartbeatQueue.CommittedIsOnlyAppended | apps/agent/internal/heartbeat/merge.go:136-218 | earlier commits never influence or lose to later ones |
| Flood.SortByTimestamp | apps/agent/internal/heartbeat/merge.go:77-79 | the array becomes a sorted permutation of itself |
| Flood.FillPairInPlace | apps/agent/internal/heartbeat/merge.go:84-108 | one round changes only the pair, as the case analysis says |
| Flood.FillInPlace | apps/agent/internal/heartbeat/merge.go:84-108 | the in-place loop computes the left-to-right fold that carries the changed right event on |
| Flood.PairExactly | apps/agent/internal/heartbeat/merge.go:84-117 | two events in timestamps: a gap of at most pulsetime is closed by one event for both if they are alike, else by the longer one; other pairs stay as they are |
| Flood.DropEmpty | apps/agent/internal/heartbeat/merge.go:110-117 | compacting in place keeps exactly the positive-duration events, in order |
| Flood.Flood | apps/agent/internal/heartbeat/merge.go:72-118 | the caller's array is sorted in place, the filling works on a copy, and the result is the flooded form of the sorted input: sorted, nothing lost, little invented |
| Flood.FloodIsSorted | apps/agent/internal/heartbeat/merge.go:72-118 | the output is sorted by timestamp |
| Flood.NegativeDurationsCanUnsort | apps/agent/internal/heartbeat/merge.go:84-108 | a concrete input with a negative duration whose output is not sorted |
| Flood.FloodLosesNothing | apps/agent/internal/heartbeat/merge.go:72-118 | every positive-duration input lies inside an output event with equal data |
| Flood.FloodInventsLittle | apps/agent/internal/heartbeat/merge.go:72-118 | every covered instant is covered by the input or at most pulsetime before some input's start |
| Flood.FloodIsSound | apps/agent/internal/heartbeat/merge.go:72-118 | all three together for any sorted permutation of the input |
| FloodDisjoint.FloodDisjointExactly | apps/agent/internal/heartbeat/merge.go:84-117 | disjoint input gives disjoint output if and only if no event restarts inside the window of a merged-away one |
| FloodDisjoint.LongEventsStayDisjoint | apps/agent/internal/heartbeat/merge.go:84-117 | so it does when every event is longer than pulsetime |
| FloodDisjoint.UnlikeNeighbours | apps/agent/internal/heartbeat/merge.go:84-117 | without alike neighbours: disjoint, same events in order, every remaining gap 0 or above pulsetime, total grown by exactly the filled gaps |
| FloodDisjoint.SortedOrderIsUnique | apps/agent/internal/heartbeat/merge.go:77-79 | disjoint events have one sorted order, so an unstable sort cannot matter |
| FloodDisjoint.FloodIsIdempotent | apps/agent/internal/heartbeat/merge.go:72-118 | flooding a flooded result again changes nothing |
| Bytes.U16RoundTrip | apps/agent/internal/stream/delta.go:78-116 | big-endian uint16 out and in again keeps the low 16 bits |
| Bytes.U32RoundTrip | apps/agent/internal/stream/protocol.go:29-53 | big-endian uint32 out and in again keeps the low 32 bits |
| Bytes.U32Inverse | apps/agent/internal/stream/protocol.go:29-53 | four bytes in and out again are the same four bytes |
| Bytes.AddedBit | apps/agent/internal/stream/delta.go:80-86 | adding an absent power of two sets that bit and no other |
| Bytes.SetBit | apps/agent/internal/stream/delta.go:80-86 | setting a bit of a byte changes that bit alone and stays a byte |
| Bytes.BitWeights | apps/agent/internal/stream/delta.go:80-86 | bit j of a byte is its digit of weight 1, 2, 4, ..., 128 |
| Frame.BuildFrame | apps/agent/internal/stream/protocol.go:29-38 | the buffer written piece by piece is header and payload |
| Frame.FrameBytes | apps/agent/internal/stream/protocol.go:29-38 | byte by byte: version 1, type, two zero bytes, the length in four bytes, most significant first, the payload |
| Frame.BuildThenParse | apps/agent/internal/stream/protocol.go:29-53 | the Go reader returns what was built if and only if the payload is below 2^32-8, the TypeScript one if and only if it is below 2^32 |
| Frame.ParseThenBuild | apps/agent/internal/stream/protocol.go:41-53 | rebuilding any parsed frame gives type, length and payload as parsed, and all its bytes if and only if version and reserved bytes were the standard ones |
| Frame.ParsersAgreeExactly | apps/web/hooks/use-streaming.ts:24-32 | on any input whatever, the exact condition under which both readers give the same answer |
| Frame.ShortBuffersAgree | apps/web/hooks/use-streaming.ts:24-32 | below 4 GiB: exactly when the announced length does not wrap |
| DeltaWire.PackBits | apps/agent/internal/stream/delta.go:80-86 | the loop over the blocks produces the packed bitfield |
| DeltaWire.PackedBits | apps/agent/internal/stream/delta.go:80-86 | bit i%8 of byte i/8 is set exactly for the flagged blocks i |
| DeltaWire.ReadStream | apps/agent/internal/stream/delta.go:99-116 | length-prefixed records read back one per flag, and fail exactly when counts differ |
| DeltaWire.DecodeInvertsEncode | apps/agent/internal/stream/delta.go:78-118 | decoding returns exactly the changed indices and their bytes in row-major order, and rejects the payload exactly when a changed block failed to encode |
| DeltaWire.DecodeExactlyWithinBounds | apps/agent/internal/stream/delta.go:78-118 | the round trip holds if and only if grid sides and blocks are below 65536 |
| DeltaEncoder.HashBlock | apps/agent/internal/stream/delta.go:130-139 | the wrapping uint32 loop computes the weighted pixel sum and never wraps; which change of a pixel that sum notices is `DeltaPixels.PixelIsHashed` |
| DeltaEncoder.GridIndex | apps/agent/internal/stream/delta.go:43-50 | row-major numbering is a bijection with (row, column) |
| DeltaEncoder.HashAll | apps/agent/internal/stream/delta.go:43-50 | the nested loops fill slot i with the hash of block i |
| DeltaEncoder.Encoder.constructor | apps/agent/internal/stream/delta.go:13-24 | starts without hashes |
| DeltaEncoder.Encoder.Reset | apps/agent/internal/stream/delta.go:121-127 | forgets the hashes and takes the new size |
| DeltaEncoder.Encoder.Encode | apps/agent/internal/stream/delta.go:29-119 | new state and output of one frame; `DeltaPixels` says in pixels and bytes what they are |
| DeltaEncoder.Encoder.EncodeNext | apps/agent/internal/stream/delta.go:61-118 | the same-size frame: division by zero without blocks, full frame above 60 %, else the delta and the hashes of the sent blocks |
| DeltaEncoder.Encoder.Compare | apps/agent/internal/stream/delta.go:61-69 | flags and counts exactly the blocks whose hash differs |
| DeltaEncoder.Encoder.SendBlocks | apps/agent/internal/stream/delta.go:88-116 | writes the records of all changed blocks in row-major order; only blocks really written take over their new hash |
| DeltaEncoder.Encoder.SendRow | apps/agent/internal/stream/delta.go:88-116 | the same for one row of the grid, continuing what is written so far |
| DeltaEncoder.ProgressStep | apps/agent/internal/stream/delta.go:99-116 | one block more: record and hash advance together or not at all |
| DeltaPixels.PayloadHead | apps/agent/internal/stream/delta.go:78-98 | the payload begins with the grid size, most significant byte first, and bit i%8 of byte 4+i/8 is set exactly for the changed blocks i |
| DeltaPixels.PayloadRecord | apps/agent/internal/stream/delta.go:99-116 | behind the flags stand the changed blocks that encoded, in order, each behind its two-byte length |
| DeltaPixels.PixelIsInBlock | apps/agent/internal/stream/delta.go:43-50 | pixel (u, v) is in block v/16·gridW + u/16, whose corner is (u/16·16, v/16·16) |
| DeltaPixels.PixelIsHashed | apps/agent/internal/stream/delta.go:130-139 | if two images differ in a square in one pixel only, its hashes differ by 31·Δr + 37·Δg + 41·Δb of the high bytes: equal if and only if that is 0 |
| DeltaPixels.ChangedPixelIsSent | apps/agent/internal/stream/delta.go:29-119 | two frames in a row, one pixel of a square changed: the second is a full frame, or a delta that flags the pixel's square if and only if that weighted sum changed |
| DeltaPixels.ChangedChannelIsSent | apps/agent/internal/stream/delta.go:29-119 | so a change in the high byte of a single channel is always sent |
| DeltaPixels.FlaggedBlockIsCarried | apps/agent/internal/stream/delta.go:99-116 | a delta carries the encoding of every block it flags, unless that failed |
| DeltaPixels.FrameKindExactly | apps/agent/internal/stream/delta.go:35-77 | full if first of its size or more than 60 % of the blocks changed, division by zero for a later image without blocks, else a delta; and a full frame is the encoding of the whole image |
| DeltaMirror.DeltaFrameMirrors | apps/agent/internal/stream/delta.go:61-118 | from any state: an arriving delta leaves viewer and encoder with the current image if and only if every changed block encodes and every other block was right |
| DeltaMirror.FullFrameMirrors | apps/agent/internal/stream/delta.go:53-77 | from any state: an arriving full frame does if and only if it encodes or nothing was missing |
| DeltaMirror.LostFrameMirrors | apps/agent/internal/stream/manager.go:138-144 | from any state: a lost frame does if and only if nothing was missing and no changed block of a delta failed to encode |
| DeltaMirror.FrameMirrorsExactly | apps/agent/internal/stream/manager.go:134-144 | all three, after any session, with frames that failed to encode and frames lost in sending |
| DeltaMirror.FrameKeepsMirror | apps/agent/internal/stream/delta.go:29-119 | a viewer in step stays in step if and only if every encoding this frame attempts succeeds, and the frame arrives or has nothing to send |
| DeltaMirror.ViewerFollowsEncoder | apps/agent/internal/stream/delta.go:29-119 | over any session of images and resizes, the viewer shows for each block a picture sent with exactly the current hash, and `blockHashes` are those of the current image, after every frame if and only if every encoding attempted succeeds and every frame with something to send arrives |
| DeltaMirror.HashCollisionIsInvisible | apps/agent/internal/stream/delta.go:130-139 | different images can have equal hashes, so being in step is about hashes |
| DeltaMirror.LostFullFrameIsNotRepaired | apps/agent/internal/stream/delta.go:53-59 | after a first full frame that failed to encode or was lost, an unchanged image is never sent |
| Breaker.Client.constructor | apps/agent/internal/sync/client.go:34-37 | starts closed with a 60 s reset |
| Breaker.Client.IsBlocked | apps/agent/internal/sync/client.go:115-122 | blocked exactly while open and inside the back-off |
| Breaker.Client.IsAvailable | apps/agent/internal/sync/client.go:125-145 | answer and new state in all three states |
| Breaker.Client.RecordFailure | apps/agent/internal/sync/client.go:468-491 | new state after a failure: counting, opening, doubling up to 240 s |
| Breaker.Client.RecordSuccess | apps/agent/internal/sync/client.go:493-500 | closed, counters and back-off cleared |
| Breaker.Client.ResetCircuit | apps/agent/internal/sync/client.go:505-512 | the same |
| Breaker.Client.ReleaseProbe | apps/agent/internal/sync/client.go:207-217 | a permanent status frees the probe slot and nothing else; `PermanentStatusFreesSlot` says what follows |
| Breaker.BreakerIsItsHistory | apps/agent/internal/sync/client.go:125-145 | `failures` counts failures since the last success or reset; closed iff below 3; back-off 60 s·2^min(k,2) for k probe failures; a probe only while half-open |
| Breaker.SlotIsItsHistory | apps/agent/internal/sync/client.go:125-217 | half-open exactly if somebody asked after the back-off and no outcome followed; the probe slot is taken exactly if somebody asked after that and neither an outcome nor a permanent status followed |
| Breaker.AdmitsExactly | apps/agent/internal/sync/client.go:115-145 | who is admitted and who is blocked, for every history, in the operations of that history |
| Breaker.PermanentStatusFreesSlot | apps/agent/internal/sync/client.go:207-217 | after a permanent status in a closed or half-open breaker the next caller is admitted |
| Breaker.OpenAdmitsAfterBackoff | apps/agent/internal/sync/client.go:115-145 | an open breaker admits exactly when the back-off since the last failure is over, and both gates agree |
| Breaker.HalfOpenAdmits | apps/agent/internal/sync/client.go:136-142 | while half-open only the probe slot admits, once |
| Breaker.StretchAdmitsAtMostTwo | apps/agent/internal/sync/client.go:125-145 | between two outcomes at most two callers get in, and two if and only if one but the last asks after the back-off |
| Retry.WithRetryTag | apps/agent/internal/sync/retry.go:45-97 | the loop makes exactly the calls and sleeps of the recursive specification |
| Retry.Attempt | apps/agent/internal/sync/retry.go:58-96 | one turn: call, classification, budget checks, sleep, interval growth |
| Retry.SleepFor | apps/agent/internal/sync/retry.go:71-89 | both budget checks and the jittered sleep clamped to what remains |
| Retry.NeverSleepsPastBudget | apps/agent/internal/sync/retry.go:45-97 | no sleep reaches past the budget, whatever the called function does |
| Retry.RetriesOnlyTransientFailures | apps/agent/internal/sync/retry.go:58-97 | only transient failures are retried, and success is reported exactly when the last call succeeded |
| Retry.ScheduleExactly | apps/agent/internal/sync/retry.go:45-97 | for any configuration and any function: when each attempt is over, that a sleep follows exactly if it failed for the moment and the budget is not spent, and that it is the jittered k-times-grown interval or what is left of the budget |
| Retry.DefaultSchedule | apps/agent/internal/sync/retry.go:17-23 | by default 2, 4, 8, ... 256, 300, 300 seconds before jitter, within half an hour |
| Retry.Post | apps/agent/internal/sync/client.go:153-227 | result, requests sent and breaker state of a sequential Post; `PostIsBreakerHistory` says what it does to the breaker |
| Retry.PostIsBreakerHistory | apps/agent/internal/sync/client.go:153-227 | to the breaker a Post is one question and then, for each request, at the time it ended: a success below 400, a permanent status for 400, 401, 403, 404 and 422, else a failure; only failures are followed by another request |
| Retry.PermanentStatusIsFinal | apps/agent/internal/sync/client.go:207-217 | an admitted Post whose first reply is a permanent status fails after one request, and the next caller is admitted |
| Retry.OpenBreakerStopsRetry | apps/agent/internal/sync/client.go:180-185 | a breaker opened meanwhile ends the retries without a request |
| Retry.ClosedSendsMoreExactly | apps/agent/internal/sync/retry.go:45-97 | for any configuration and timing, by induction over the turns: a loop that starts with f < 3 failures sends more than 3-f requests if and only if it outlives the back-off its own failures started |
| Retry.ClosedPostSends | apps/agent/internal/sync/client.go:153-227 | under the default configuration, with delays below 50 s: failures add up until the third opens the breaker |
| Retry.PostFromClosedExactly | apps/agent/internal/sync/client.go:153-227 | closed after f failures, transient failures only, any configuration and timing: more than 3-f requests if and only if the loop still runs after the first 3-f and takes its next turn 60 s or more after the failure that opened the breaker |
| Retry.PostFromClosed | apps/agent/internal/sync/client.go:153-227 | so under the default configuration, with requests within the 60 s HTTP timeout and delays besides the sleeps below 50 s: exactly 3-f requests, then failure |
| Retry.LateWakeSendsMore | apps/agent/internal/sync/client.go:180-185 | a sleeper that wakes a minute late sends a fourth request |
| Retry.PostFromHalfOpenExactly | apps/agent/internal/sync/client.go:153-227 | from an open or half-open breaker, any configuration and timing: none if refused, else one, and more if and only if the loop takes its next turn after the doubled back-off |
| Retry.PostFromHalfOpen | apps/agent/internal/sync/client.go:153-227 | so under the default configuration and the same delays: one request if admitted, and open again |
| ActivityQueue.StepKeepsInv | apps/api/src/modules/agent/activity-queue.service.ts:45-88 | every queue and worker step keeps the lease and delivery account |
| ActivityQueue.RunKeepsInv | apps/api/src/modules/agent/activity-queue.service.ts:45-88 | so it holds in every run with any number of workers |
| ActivityQueue.AtMostOneLease | apps/api/src/modules/agent/activity-queue.service.ts:60-65 | a message is held by at most one unexpired lease |
| ActivityQueue.NeverLost | apps/api/src/modules/agent/activity-worker.service.ts:65-122 | each message is still queued or was inserted at least once |
| ActivityQueue.HiddenWhileLeased | apps/api/src/modules/agent/activity-queue.service.ts:60-65 | a message that was read is hidden from every worker for exactly 30 s |
| ActivityQueue.TableIsInsertions | apps/api/src/modules/agent/activity-worker.service.ts:82-109 | in every run `activity_events` contains each event exactly as often as it was inserted with its messages |
| ActivityQueue.TableMembers | apps/api/src/modules/agent/activity-worker.service.ts:82-109 | so it contains the events of exactly the messages that were inserted |
| ActivityQueue.DeletedIsInTable | apps/api/src/modules/agent/activity-worker.service.ts:101-109 | in every run each event of a message that has left the queue is in the table |
| ActivityQueue.ExactlyOnceWhenTimely | apps/api/src/modules/agent/activity-worker.service.ts:65-122 | when drains insert and delete inside their visibility window no message is inserted twice, and one that left was inserted exactly once |
| ActivityQueue.DrainedQueueIsInTable | apps/api/src/modules/agent/activity-worker.service.ts:65-122 | once timely drains have emptied the queue, the table contains each event exactly as often as it was sent |
| ActivityQueue.LateInsertDuplicates | apps/api/src/modules/agent/activity-worker.service.ts:65-122 | which insert is a second one: after a timely run, exactly one whose message another worker has inserted meanwhile, and only after the lease has run out |
| ActivityQueue.SlowWorkerDuplicates | apps/api/src/modules/agent/activity-worker.service.ts:65-122 | such a run |
| ActivityWorker.Database.Enqueue | apps/api/src/modules/agent/activity-queue.service.ts:45-51 | a fresh message, visible at once |
| ActivityWorker.Database.Read | apps/api/src/modules/agent/activity-queue.service.ts:60-65 | different visible messages, a full batch or all there are, leased for vt seconds; nothing else changes |
| ActivityWorker.Database.DeleteMany | apps/api/src/modules/agent/activity-queue.service.ts:82-88 | removes exactly the named messages |
| ActivityWorker.AllEntities | apps/api/src/modules/agent/activity-worker.service.ts:82-99 | the nested loops: the events of message k stand together behind those of all messages before it, and nothing else is there |
| ActivityWorker.InOrderIsFlatten | apps/api/src/modules/agent/activity-worker.service.ts:82-99 | that order fixes the inserted rows |
| ActivityWorker.Worker.Drain | apps/api/src/modules/agent/activity-worker.service.ts:65-122 | skipped while one is running; otherwise up to 200 visible messages are leased for 30 s, the events of all of them inserted in order or none, and exactly the inserted messages deleted |
| ActivityWorker.DrainIsQueueRun | apps/api/src/modules/agent/activity-worker.service.ts:65-122 | an undisturbed drain leaves the queue as read, insert and delete of the model do, and the events it adds to the table are those the model adds, as often |
| Buffer.InsertRowsShape | apps/agent/internal/buffer/db.go:211-238 | inserted rows get consecutive new ids in order; old rows stay |
| Buffer.ListedRowsGo | apps/agent/internal/sync/uploader.go:77-116 | a flush sends the listed events one by one; what it deletes are those rows and no others, and older than all that stay |
| Buffer.DB.InsertActivityBatch | apps/agent/internal/buffer/db.go:211-238 | all rows, or none and the old state if any statement fails |
| Buffer.DB.ListUnsyncedActivity | apps/agent/internal/buffer/events.go:65-85 | the oldest rows with their ids, ascending, up to the limit, or nothing on failure |
| Buffer.DB.MarkActivitySynced | apps/agent/internal/buffer/events.go:90-92 | deletes exactly the named rows, or nothing on failure |
| Buffer.DB.CapBuffer | apps/agent/internal/buffer/db.go:140-178 | removes exactly the oldest rows beyond the limit, or nothing if the count or the delete fails |
| Buffer.DB.PruneSynced | apps/agent/internal/buffer/events.go:263-280 | a row stays exactly if it was started at the cutoff or later, unchanged; on failure all stay |
| Buffer.WriteBatcher.constructor | apps/agent/internal/buffer/batcher.go:13-25 | nothing pending, no timer |
| Buffer.WriteBatcher.Add | apps/agent/internal/buffer/batcher.go:28-39 | appends, or at the batch size flushes; the timer runs exactly while something is pending |
| Buffer.WriteBatcher.Flush | apps/agent/internal/buffer/batcher.go:42-46 | nothing stays pending: stored in order, or counted as dropped |
| Buffer.WriteBatcher.FlushLocked | apps/agent/internal/buffer/batcher.go:48-63 | the same with the lock held |
| Buffer.Uploader.FlushActivity | apps/agent/internal/sync/uploader.go:77-116 | rows leave the table only after exactly their events were acknowledged, and exactly those rows, whichever call fails |
| Pipeline.FlushIsPipelineRun | apps/agent/internal/sync/uploader.go:77-116 | an undisturbed flush does to table and queue what the protocol's steps do |
| Pipeline.RunKeepsInv | apps/agent/internal/sync/uploader.go:77-116 | the end-to-end account in every interleaving of batcher, flushers, API, workers, cap, prune and crashes |
| Pipeline.NothingDisappears | apps/agent/internal/sync/uploader.go:77-116 | the events given to the batcher are exactly those pending, in SQLite, in the queue, in the server's table, or explicitly dropped |
| Pipeline.DroppedExactly | apps/agent/internal/sync/uploader.go:77-116 | in every run the dropped events are exactly those some step gave up: pending at a failed insert or a crash, beyond the cap, or started before a prune's cutoff |
| Pipeline.RowsAfter | apps/agent/internal/buffer/events.go:244-280 | which rows a cap, a prune and a delete leave |
| Pipeline.DeletedRowsWereDelivered | apps/agent/internal/buffer/events.go:244-257 | a row about to be deleted was delivered, whatever other flushers did since it was listed |
| Pipeline.DeleteIsSafe | apps/agent/internal/buffer/events.go:244-257 | in every run a delete removes only rows whose events are queued or inserted at the server |
| Pipeline.ReusedIdsWouldLoseEvents | apps/agent/internal/buffer/db.go:76 | without AUTOINCREMENT a concurrent flusher's delete could lose an unsent event |
| Screenshots.StepKeepsInv | apps/agent/internal/sync/uploader.go:209-258 | each step of a flusher, the capture side, another uploader or a crash keeps the account, unless it is a dangerous PUT |
| Screenshots.NoScreenshotIsLost | apps/agent/internal/sync/uploader.go:192-266 | with any number of flushers and a crash anywhere, as long as no PUT was dangerous, a recorded screenshot is saved together with an object that shows it, or still has row and file |
| Screenshots.DangerLoses | apps/agent/internal/sync/uploader.go:223-258 | a dangerous PUT loses a screenshot within two more steps of the flusher that counted on the object |
| Screenshots.LostExactlyByDanger | apps/agent/internal/sync/uploader.go:192-266 | the exact condition, known before the step: the next step dooms a recorded screenshot if and only if it is a PUT over an object that someone counts on and that has no copy under another key |
| Screenshots.RefusingIsHarmless | apps/api/src/modules/agent/agent.service.ts:192-199 | a bucket that refuses to overwrite never loses one |
| Screenshots.OwnKeysAreHarmless | apps/api/src/modules/agent/agent.service.ts:187-190 | nor do keys that no two screenshots and nobody else ever share |
| Screenshots.CollidingKeysLose | apps/api/src/modules/agent/agent.service.ts:187-210 | two flushers given the same millisecond key: the second upload loses the first screenshot |
| Screenshots.DiscardsOnlySaved | apps/agent/internal/sync/uploader.go:209-221 | without a dangerous PUT the orphan guard only discards rows of screenshots that are already saved |
| Screenshots.RecordIsFlushed | apps/agent/internal/sync/uploader.go:223-258 | the steps of one record, undisturbed and with a key of its own: object, metadata, row and file afterwards |
| Screenshots.BatchIsFlushed | apps/agent/internal/sync/uploader.go:192-266 | undisturbed, a flush saves every screenshot of its batch and leaves neither row nor file of it; other rows and files stay, and saved ones stay saved |
| Screenshots.OrphanIsDiscarded | apps/agent/internal/sync/uploader.go:209-219 | a record whose file is gone costs its row and nothing else |
| Screenshots.FailuresKeepRecords | apps/agent/internal/sync/uploader.go:223-262 | giving up, retrying, lost replies and crashes leave row and file alone |
| HeartbeatBuffer.HeartbeatBufferService.Record | apps/api/src/modules/agent/heartbeat-buffer.service.ts:59-65 | the device's entry becomes the new timestamp; an empty id is ignored |
| HeartbeatBuffer.HeartbeatBufferService.TakeSnapshot | apps/api/src/modules/agent/heartbeat-buffer.service.ts:76-82 | hands over everything pending and leaves nothing |
| HeartbeatBuffer.HeartbeatBufferService.RestoreFailed | apps/api/src/modules/agent/heartbeat-buffer.service.ts:99-108 | the loop puts back each entry unless a newer one is pending, in whatever order |
| HeartbeatBuffer.NewestIsNeverLost | apps/api/src/modules/agent/heartbeat-buffer.service.ts:59-109 | under overlapping and failing flushes each device's newest timestamp is pending, in flight or written |
| HeartbeatBuffer.FlushExactly | apps/api/src/modules/agent/heartbeat-buffer.service.ts:76-109 | an undisturbed flush stores every pending heartbeat of an active device and touches no other stamp, or, if it fails, leaves everything as it was |
| HeartbeatBuffer.StoredNeverGoesBack | apps/api/src/modules/agent/heartbeat-buffer.service.ts:76-109 | after any run without a dangerous overlap no step lowers a stored value |
| HeartbeatBuffer.QuiescentIsNewest | apps/api/src/modules/agent/heartbeat-buffer.service.ts:76-109 | then, once nothing is pending or in flight, every active device's stored value is its newest |
| HeartbeatBuffer.NoOverlapIsHarmless | apps/api/src/modules/agent/heartbeat-buffer.service.ts:76-82 | flushes that do not overlap are never dangerous |
| HeartbeatBuffer.OverlapCanGoBack | apps/api/src/modules/agent/heartbeat-buffer.service.ts:76-109 | the exact condition, known before the step, for any number of flushes in flight, failing or succeeding in any order: a stored value can go back without another flush beginning if and only if the step begins a flush while an older heartbeat of an active device in it is in flight |
| Watchdog.RunWatchdogLoop | apps/agent/cmd/watchdog/main_other.go:28-82 | the loop logs the crashes of the specified run, at most eight in any closed 60 s |
| Watchdog.RateHolds | apps/agent/cmd/watchdog/main_other.go:62-80 | at most eight crashes in any closed 60 s interval of any run |
| Watchdog.EightIsReached | apps/agent/cmd/watchdog/main_other.go:62-80 | and eight do occur |
| Watchdog.RestartsExactly | apps/agent/cmd/watchdog/main_other.go:44-80 | in every run: restarted 3 s after a failed start, never after a clean exit, and after a crash in 300 s if it was the fifth of its window, else in 3 s |
| RotatingLog.RotatingWriter.constructor | apps/agent/internal/logging/rotate.go:23-29 | opens the existing file at its length |
| RotatingLog.RotatingWriter.Write | apps/agent/internal/logging/rotate.go:32-41 | appends whole, then rotates if the size reaches the limit |
| RotatingLog.RotatingWriter.Rotate | apps/agent/internal/logging/rotate.go:53-64 | closes, shifts the files as far as the faults allow, reopens |
| RotatingLog.RotatingWriter.Open | apps/agent/internal/logging/rotate.go:66-79 | opens or creates the file and takes its length, unless open or stat fails |
| RotatingLog.RotationKeepsOrder | apps/agent/internal/logging/rotate.go:53-64 | whichever removes and renames fail, a rotation only loses whole files from the sequence |
| RotatingLog.RotationExactly | apps/agent/internal/logging/rotate.go:53-64 | where each of the four files ends up, whichever removes and renames fail |
| RotatingLog.NextWriteReopens | apps/agent/internal/logging/rotate.go:55-64 | a failed rotation does not leave the writer broken: whatever failed before, the next write whose open and stat work leaves an open file |
| RotatingLog.WriteLoses | apps/agent/internal/logging/rotate.go:32-64 | with nothing failing a write loses nothing, or, if it takes the file to the limit, exactly the oldest backup |
| RotatingLog.EveryWriteIsLogged | apps/agent/internal/logging/rotate.go:32-41 | with nothing failing every write of a running writer is accepted with all its bytes |
| RotatingLog.LogStaysChronological | apps/agent/internal/logging/rotate.go:23-79 | whatever was in the directory and whatever fails, over any reopenings: `.3 .2 .1 current` is a subsequence of what was there and what was accepted since, no write split |
| RotatingLog.LogIsChronological | apps/agent/internal/logging/rotate.go:32-41 | and the accepted writes are in call order with the bytes of their calls |
| RotatingLog.RunIsSound | apps/agent/internal/logging/rotate.go:23-79 | with nothing failing, in whatever directory and across reopenings, `size` is the length of the current file |
| RotatingLog.RunIsTidy | apps/agent/internal/logging/rotate.go:23-79 | and in a directory that only such writers have written, the current file stays below the limit and each rotated file exceeds it by less than its last write |
| RotatingLog.LogIsSuffix | apps/agent/internal/logging/rotate.go:23-79 | with nothing failing, in whatever directory and across reopenings, the files hold the most recent of what was there and what was written, without a gap; and nothing is lost before all three backups are there, if they filled up in order |
| Afk.MedianUint32 | apps/agent/cmd/agent/idle_filter.go:6-20 | the three conditional swaps return a sample with at most one below it and at most one above it |
| Afk.MedianByMajority | apps/agent/cmd/agent/idle_filter.go:6-20 | the median is below a threshold exactly when two of three samples are |
| Afk.EventLoop.constructor | apps/agent/cmd/agent/main.go:482-486 | starts active with an all-zero ring |
| Afk.EventLoop.OnIdleTick | apps/agent/cmd/agent/main.go:545-572 | ring, confirmation counter, AFK flag and queue after one sample |
| Afk.EventLoop.OnSuspend | apps/agent/cmd/agent/main.go:518-524 | flushes the queue |
| Afk.EventLoop.OnResume | apps/agent/cmd/agent/main.go:525-541 | leaves AFK and flushes the queue |
| Afk.EventLoop.OnWindowEvent | apps/agent/cmd/agent/main.go:586-591 | pushes a heartbeat only while active and with an application name |
| Afk.RunKeepsInv | apps/agent/cmd/agent/main.go:544-572 | in every run the ring holds the last three samples, the counter the current streak of low medians, and the queue nothing while AFK |
| Afk.QueueIsEmptyWhileAway | apps/agent/cmd/agent/main.go:544-604 | nothing is cached while AFK |
| Afk.TickOutcome | apps/agent/cmd/agent/main.go:545-572 | AFK is left by a tick exactly at the second of two consecutive low medians, and entered exactly at a high one |
| Afk.OutliersNeverFlip | apps/agent/cmd/agent/main.go:545-572 | samples with at most one outlier in any three never flip the state, either way |
| Afk.SeenIsKept | apps/agent/cmd/agent/main.go:586-591 | in every run each window seen while active lies, as a heartbeat of one second, in a cached or committed event |
| Afk.NothingWaits | apps/agent/cmd/agent/main.go:518-572 | after suspend, resume, a sync tick or a tick that finds the user away, each of them lies in a committed event |
| Afk.ResumeEndsAbsence | apps/agent/cmd/agent/main.go:525-541 | after a resume the user is active whatever the samples say, and the next window event is tracked |
| Afk.WindowEventCommitsExactly | apps/agent/cmd/agent/main.go:448-457 | a window event changes nothing while away or without a name; otherwise it commits exactly if the data differ, it starts outside the event and the 2 s after it, or the span reaches a minute |
| Afk.NoCommitSpansAbsence | apps/agent/cmd/agent/main.go:544-604 | commits after an AFK state are those of a queue that starts empty and sees only later pushes |
| TtlStore.RedisService.constructor | apps/api/src/infrastructure/redis/redis.service.ts:27-33 | starts with the unexpired entries of the file |
| TtlStore.RedisService.LoadFromDisk | apps/api/src/infrastructure/redis/redis.service.ts:94-109 | the loop keeps exactly the entries without expiry or expiring later than now |
| TtlStore.RedisService.Set | apps/api/src/infrastructure/redis/redis.service.ts:51-66 | the entry with its expiry, mirrored to disk if the save succeeds |
| TtlStore.RedisService.Get | apps/api/src/infrastructure/redis/redis.service.ts:68-78 | the value unless expired; an expired entry is gone afterwards and the file rewritten |
| TtlStore.RedisService.Del | apps/api/src/infrastructure/redis/redis.service.ts:80-87 | the entry is gone, mirrored to disk if the save succeeds |
| TtlStore.StoreIsIdeal | apps/api/src/infrastructure/redis/redis.service.ts:51-119 | in every run with restarts `get` answers as a TTL map that never restarts, and differs if and only if asked for an entry at its expiry instant after a restart in that instant |
| TtlStore.GetReturnsLastSet | apps/api/src/infrastructure/redis/redis.service.ts:51-119 | in every run with restarts `get` returns the value of the last `set` of the key, if no `del` came later and it still lives (ttl 0, or within ttl seconds, the last instant only without a restart in it), and nothing otherwise |
| AuthGuard.AgentAuthGuard.CanActivate | apps/api/src/modules/agent/agent-auth.guard.ts:47-107 | verdict and new store for every header, cache and database answer: the token is what follows "Bearer ", else a non-empty x-device-token; without one, or on refusal, nothing is cached |
| AuthGuard.TokenExactly | apps/api/src/modules/agent/agent-auth.guard.ts:50-56 | which token the headers present, and that there is at most one |
| AuthGuard.StoreIsSound | apps/api/src/modules/agent/agent-auth.guard.ts:58-106 | every cached validation was really made for the token it is stored under and expires 300 s after caching, in memory and in the file |
| AuthGuard.AdmittedIsRecentlyValidated | apps/api/src/modules/agent/agent-auth.guard.ts:58-106 | a request admitted from the cache stands on a validation of that very token cached at most 300 s ago, restarts and failed saves included |
| AuthGuard.RevocationHolds | apps/api/src/modules/agent/agent-auth.guard.ts:28-31 | after a saved revocation, whatever restarts and failing saves follow, the cache admits only on a validation cached after it |
| AuthGuard.AdmittedAfterRevocation | apps/api/src/modules/agent/agent-auth.guard.ts:58-106 | exactly which, when every fill has a miss of its own behind it: those looked up after the revocation, and those of a miss in flight when it happens, cached after it |
| AuthGuard.AdmittedAfterDeactivation | apps/api/src/modules/admin/admin.service.ts:131-144 | deactivation leaves the cache alone: a user can still be admitted from it exactly for 300 s and the longest time from a user lookup to the caching |
| AuthGuard.UnsavedRevocationReturns | apps/api/src/infrastructure/redis/redis.service.ts:94-119 | a revocation whose save failed is undone by a restart if and only if the file held the entry and it has not expired |
| AuthGuard.BoundIsReached | apps/api/src/modules/agent/agent-auth.guard.ts:36-37 | a cached validation is served exactly until 300 s after its caching |

## Left out

- Retry.PostFromClosed: the exact count assumes the default configuration, delays besides the sleeps below 50 s per turn and requests within the 60 s HTTP timeout; `PostFromClosedExactly` assumes nothing of the kind.
- Retry.Post: the breaker travels through the retry loop as a value, so other callers of the client during one Post are not captured there; `Breaker` covers arbitrary interleavings of the breaker's own steps.
- Retry.SleepFor: jitter and growth are computed in reals and rounded down; the rounding of 64-bit floats is not modelled.
- Flood.FloodIsSorted: requires non-negative durations; `NegativeDurationsCanUnsort` shows why, and no exact condition is given.
- Flood.SortByTimestamp: some sorted permutation; the order `sort.Slice` leaves among equal timestamps is not fixed.
- DeltaMirror.ViewerFollowsEncoder: equal up to block hashes, as the encoder cannot tell more; JPEG content is opaque; images are non-empty, and what a delta sends fits its uint16 fields.
- Screenshots.NoScreenshotIsLost: capture file names are taken to be different (they carry the millisecond); cap, prune and deletion of local files by others are aside; `FlushScreenshots` is modelled as protocol steps on a value, not as an object.
- HeartbeatBuffer.StoredNeverGoesBack: the timestamps recorded for a device never decrease.
- TtlStore.StoreIsIdeal: the wall clock does not go back, and saves succeed; the guard's lemmas drop the second assumption.
- AuthGuard.AdmittedAfterDeactivation: one deactivation and no reactivation; requests admitted by the miss itself are not from the cache.
- ActivityWorker.Worker.Drain: no other party acts between its read, insert and delete; the interleavings are in `ActivityQueue`.
- HeartbeatBuffer.OverlapCanGoBack: one dangerous flush after a harmless run; what further dangerous flushes do is not described beyond `NewestIsNeverLost`.
- RotatingLog.LogStaysChronological: one writer at a time in a directory.
- Buffer.DB.CapBuffer: the activity table only; the other three tables get the same treatment one after another.
- Buffer.DB.PruneSynced: the activity table only.
- Pipeline.NothingDisappears: a transaction, an enqueue and a bulk insert are single atomic steps, as their comments promise; the HTTP call may deliver and lose its reply any number of times.
- Saturation of int64 nanoseconds and `time.Duration`, and the difference between nil and empty `Data` maps.
- JPEG, gzip, JSON, TLS, S3, the SQL engine, pgmq and TypeORM internals: opaque functions or atomic steps.
- Mutexes and goroutine timing: each method of a locked object is one step. The batcher's timer is its `timerArmed` flag; its firing is a `Flush`.
- The Redis client branch of the store; only the file-backed one is modelled.
- The worker's field mapping from payload to entity (truncation and rounding of single fields).
- Keystroke, metrics and screenshot-metadata tables, queues and workers: copies of the activity ones.
- Classifier, burst uploads (except that they may take a key), stale screenshot janitor, capture, tray, service and update code, web components, controllers and migrations.
