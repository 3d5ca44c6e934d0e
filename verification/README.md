# CrossFlow-X: verified model

CrossFlow-X makes several computers behave like one: it captures mouse and keyboard input on one
machine and injects it on another.  This project models the parts of it where order, concurrency
or arithmetic decide correctness, and proves what they promise.

The core is the lock-free queue between the system's event callback and the capture thread.

- `SpscProtocol` describes the ring buffer with one step per load, store or fetch-and-add of a
  shared atomic, for one producer, one consumer, any capacity, any item size and any interleaving.
  `SpscSafety` gives one inductive invariant; `SpscTheorems` and `SpscProgress` draw the results: no
  torn reads, ordered delivery, justified loss, a bound on retries, what each call achieves when
  left alone and how many accesses it takes, and, with lossless pushes only, a bounded
  first-in-first-out queue.  `SpscLossy` gives the queue that every mixture of pushes is a run of,
  and `SpscDrops` settles which items are lost and when the drop counter is right.
- `AtomicPayload` and `SpscRingBuffer` are the same code as objects over arrays with whole calls,
  where the contents are exactly the newest items and every item is accounted for.
- `CaptureProtocol` interleaves enqueueing with the capture loop, step by step, and `CaptureOnRing`
  runs both over the ring protocol itself; `CaptureProgress` says which events are let in and that
  the loop hands them on, also when it is told to stop; `CaptureThread` is the dual channel, the
  resynchronizer and one loop body as objects over the two real rings.

Around the core stand independent modules: the log queue with its worker (`LoggerProtocol`,
`LoggerRuns`), message framing over sockets that split every transfer at will (`Framing`), the
identity and trusted-list files and their recovery (`TextStream`, `IdentityStore`, `TrustedStore`),
the topology commit (`TopologyCommit`, `TopologyCalls`), pairing and handshake (`Handshake`,
`HandshakeCalls`), the evidence check (`Correlation`), the bitmaps and the release of everything
pressed (`Bitmaps`, `ReleaseExecutor`), the discovery record (`TxtRecord`), the input gate
(`ResyncGate`) and the display geometry (`Geometry`).

An object whose methods change fields in place is a class; each method is proved equal to a pure
step, and the results are lemmas about all runs of those steps.  For `TopologyVersionManager`,
`PairingFsm`, `HandshakeOrchestrator` and `DisconnectResyncCoordinator` that equality is all the
methods state, so the table lists the lemmas about the runs and not each method.

`dafny verify dfyconfig.toml` checks everything.

## Where the code does less than one might expect

Each of these has its exact condition, stated as an if and only if, or a concrete run or input that
shows it.

- The drop counter of an overwriting push is not exact under concurrency, in either direction: it
  can count an item that was or will be delivered, and miss one that is lost
  (`SpscDrops.CountRightIff`, `SpscDrops.SpuriousDropExists`, `SpscDrops.CountedWithoutLossExists`,
  `SpscDrops.UncountedLossExists`).
- A lossless push tests for exactly one capacity of distance; on a ring that overwriting pushes have
  driven further apart it overwrites without counting (`SpscRingBuffer.TryPush`,
  `SpscRingBuffers.OverwriteUncounted`).
- A state event refused after the capture loop has begun to resynchronize, or while a recovery is
  pending, need not get a resynchronization of its own (`CaptureProtocol.RefusalAnsweredIff`,
  `CaptureProtocol.RefusalForgotten`).
- A state event that arrives between the end of the capture loop and the removal of the event tap is
  accepted and then stays in its ring (`CaptureProgress.EndMeansHandedOn`,
  `CaptureProgress.LateEventIsStranded`).
- A trigger from outside keeps the capture loop from resynchronizing until a reset
  (`CaptureThread.TriggeredStaysBlocked`).
- An empty log line is accepted but never emitted (`LoggerProtocol.AllEmittedIffNoneEmpty`,
  `LoggerProtocol.EmptyLineVanishes`).
- Payloads of length 0 or above 65536 are sent but end the receiver (`Framing.DeliveredIffLegal`).
- A topology name with white space does not survive its file (`IdentityStore.LoadAfterPersistIff`),
  and recovery does not settle when the file cannot be written (`SecondRecoveryIdleIff`).
- A negative pairing answer counts as the pairing half of a handshake, and leaves the peer in the
  trusted list (`Handshakes.MemberNeedNotBeTrusted`, `Handshakes.RejectedStillListed`,
  `Handshakes.MarkIffGivenAndKept`).
- The gap loop of the evidence check does not end when the largest id is the largest 64-bit number
  (`EvidenceCorrelation.GapLoopEndsIff`).
- A release that once ended at its deadline makes every later release report the same
  (`ReleaseExecutor.DeadlineIsSticky`, `ReleaseExecutor.ResultSpeaksOfLastIff`).
- A TXT key that holds an equals sign is split there (`TxtRecord.RoundTripIff`), and a record of
  65536 bytes or more loses entries because it is announced shorter than it is
  (`TxtRecord.AnnouncedInFullIff`).
- Displays merged to a width of 2^31 or more, at a height that still counts, have points of their
  own reported as outside (`Geometry.NoFalseEventIff`), and merging with 32-bit sums can differ
  from the bounding box (`Geometry.MergesAgreeIff`).

## Model

| member | source | states |
|---|---|---|
| AtomicPayloads.UnpackPack | platform/common/atomic_payload.hpp:27-52 | loading the words a store left gives back the value, for every byte size, the last word being partial |
| AtomicPayloads.BytesOfWordFromBytes | platform/common/atomic_payload.hpp:30-36 | a word gives back exactly the bytes copied into it |
| AtomicPayloads.AtomicPayload.Store | platform/common/atomic_payload.hpp:27-38 | the words afterwards are the packed value, whatever they held |
| AtomicPayloads.AtomicPayload.Load | platform/common/atomic_payload.hpp:40-52 | a load returns the value whose packed form the words are |
| SpscTheorems.NoTornReadsInOrder | platform/common/spsc_ring_buffer.hpp:69-140 | in every interleaving of single shared accesses, with both kinds of push mixed freely and any payload size: each item returned is, whole, the item pushed at the index it was taken from, and those indices strictly increase |
| SpscTheorems.HistoriesMatchTrace | platform/common/spsc_ring_buffer.hpp:76-138 | what the trace shows as published and as returned is, in order, the log up to the head and the deliveries |
| SpscTheorems.LossIsJustified | platform/common/spsc_ring_buffer.hpp:94-123 | the tail never passes the head; every index the tail has passed was delivered, or its slot already carries the number of a later push |
| SpscTheorems.RetriesAreBounded | platform/common/spsc_ring_buffer.hpp:90-123 | one pop retries at most once more than the items published since it first loaded the head |
| SpscTheorems.BusyMeansOverwriting | platform/common/spsc_ring_buffer.hpp:112-130 | a pop that fails on the version or number check lost its item: a push one capacity later has already begun on that slot |
| SpscTheorems.LosslessIsLinearizableFifo | platform/common/spsc_ring_buffer.hpp:48-67 | with lossless pushes only, every interleaving is a run of a bounded first-in-first-out queue: pushes and pops take effect at one of their own accesses, a push is refused only when the queue is full, a pop fails only when it is empty |
| SpscTheorems.PopEmptyMeansEmpty | platform/common/spsc_ring_buffer.hpp:106-108 | in every run a pop that reports the ring empty does so at an access at which tail and head are equal, whichever pushes are used |
| SpscTheorems.DeliveredWithinCapacity | platform/common/spsc_ring_buffer.hpp:91-132 | in every run a delivery lies within one capacity below the head that very pop loaded |
| SpscTheorems.StepRefinesFifo | platform/common/spsc_ring_buffer.hpp:48-140 | one shared access of either thread is one step, or no step, of the bounded queue |
| SpscTheorems.ChecksNeverFail | platform/common/spsc_ring_buffer.hpp:111-130 | in that mode neither the boundary jump nor the version and number checks ever fire |
| SpscTheorems.FullTestIsExact | platform/common/spsc_ring_buffer.hpp:49-53 | in that mode the unsigned difference tested against the capacity is the number of items waiting |
| SpscTheorems.LosslessReturnsPrefix | platform/common/spsc_ring_buffer.hpp:48-140 | in that mode the items returned are a prefix of the items pushed |
| SpscDrops.DropCountedIff | platform/common/spsc_ring_buffer.hpp:83-85 | an overwriting push moves the counter exactly when the consumer is over a capacity behind, or has already taken the very item just published |
| SpscDrops.LostIff | platform/common/spsc_ring_buffer.hpp:89-139 | an item a whole capacity below the head is never delivered, whatever happens next, if and only if it has not been delivered and no pop has passed all its checks on it |
| SpscDrops.CountRightIff | platform/common/spsc_ring_buffer.hpp:69-87 | one overwriting push counts a drop exactly if the item it displaced is lost, if and only if, where the consumer stands at the sampling of the tail: nothing was displaced and the new item is not yet taken; or the consumer is at or below the displaced item without having passed its checks on it; or beyond it, having delivered it; or it has taken the new item and not the displaced one |
| SpscDrops.UncountedLossExists | platform/common/spsc_ring_buffer.hpp:83-100 | for any two items a run on a ring of one slot loses the first with nothing counted |
| SpscDrops.CountedWithoutLossExists | platform/common/spsc_ring_buffer.hpp:83-132 | for any two items a run on a ring of one slot counts a drop with the consumer a capacity behind, and delivers the item |
| SpscLossy.EveryTraceIsLossyRun | platform/common/spsc_ring_buffer.hpp:48-140 | every schedule, whatever pushes it mixes, is a run of a queue that returns from the front, drops its oldest only while more than a capacity are in or under way, refuses a push only at capacity, and is empty or busy only when it may be |
| SpscLossy.StepRefinesLossy | platform/common/spsc_ring_buffer.hpp:48-140 | one shared access of either thread is one step of that queue |
| SpscLossy.LossyRunInOrder | platform/common/spsc_ring_buffer.hpp:48-140 | in every run of that queue the items waiting are the last ones pushed, and those returned are some of the earlier ones in push order |
| SpscDrops.SpuriousDropExists | platform/common/spsc_ring_buffer.hpp:76-85 | for every capacity and item there is a run with one push, that item delivered, and one drop counted |
| SpscProgress.SoloPopDeliversOldestLive | platform/common/spsc_ring_buffer.hpp:89-139 | from any reachable state with the producer outside its writing phase, a pop left alone delivers the oldest live item and changes nothing else |
| SpscProgress.SoloPushPublishes | platform/common/spsc_ring_buffer.hpp:69-76 | an overwriting push left alone publishes its item whatever the consumer is in the middle of |
| SpscProgress.SoloPushEnds | platform/common/spsc_ring_buffer.hpp:48-87 | a push of either kind left alone ends, whatever the consumer is in the middle of: published, with the drop counted exactly if an overwriting push found the tail a capacity or more behind, unless it is lossless and finds the head exactly a capacity ahead in 64-bit arithmetic, and then refused with nothing changed |
| SpscProgress.SoloLosslessPush | platform/common/spsc_ring_buffer.hpp:48-67 | so a lossless push left alone publishes into a ring with room and is refused by one that is just full |
| SpscProgress.SoloPopEnds | platform/common/spsc_ring_buffer.hpp:89-140 | a pop left alone ends from any reachable state, whatever push is under way and whatever the slots show |
| SpscProgress.PushIsWaitFree | platform/common/spsc_ring_buffer.hpp:48-87 | whatever the consumer does in between, each access of either push brings its end nearer, and it takes at most the words of an item and eight |
| SpscProgress.PopIsWaitFree | platform/common/spsc_ring_buffer.hpp:89-140 | with lossless pushes only the same holds of a pop |
| SpscSafety.StepKeepsInv | platform/common/spsc_ring_buffer.hpp:48-140 | the inductive invariant behind these results survives every single access of either thread |
| SpscSafety.PublishedSequence | platform/common/spsc_ring_buffer.hpp:57-59 | the slot of a published index shows that index or a later one, a later one only once a push one capacity later has begun |
| SpscSafety.SettledHolds | platform/common/spsc_ring_buffer.hpp:55-59 | a slot with even version that shows an index holds the item of that index |
| SpscSafety.ConsumerSkipsOnlyOverwritten | platform/common/spsc_ring_buffer.hpp:94-123 | every index the next consumer step drops has had its slot taken over |
| SpscRingBuffers.Slot.Write | platform/common/spsc_slot.hpp:45-50 | payload, number and version after a write |
| SpscRingBuffers.Slot.TryRead | platform/common/spsc_slot.hpp:27-43 | a read succeeds exactly on an idle slot that shows the expected number, and returns the stored item |
| SpscRingBuffers.SpscRingBuffer.constructor | platform/common/spsc_ring_buffer.hpp:32-38 | an empty ring of distinct slots, the sequence number of each its own index and its version zero |
| SpscRingBuffers.SpscRingBuffer.TryPush | platform/common/spsc_ring_buffer.hpp:48-67 | refused exactly when the tail is one capacity behind; otherwise the contents become the newest items including this one; mixed with overwriting pushes on an over-full ring it overwrites one item uncounted |
| SpscRingBuffers.OverwriteUncounted | platform/common/spsc_ring_buffer.hpp:48-87 | and it happens: two overwriting pushes on a new ring of one slot, then a lossless one, which is accepted and destroys an item no counter shows |
| SpscRingBuffers.SpscRingBuffer.TryPushDropOldest | platform/common/spsc_ring_buffer.hpp:69-87 | the contents become the newest items including this one; a drop is counted exactly when the ring was full |
| SpscRingBuffers.SpscRingBuffer.TryPop | platform/common/spsc_ring_buffer.hpp:89-140 | terminates on any slots whatever; on a ring left by whole calls returns the oldest of the contents, failing exactly on the empty ring |
| SpscRingBuffers.SpscRingBuffer.LogicalDropBoundaryValue | platform/common/spsc_ring_buffer.hpp:154-159 | the head less the contents, which is everything delivered, dropped or overwritten so far |
| SpscRingBuffers.SpscRingBuffer.PendingDroppedValue | platform/common/spsc_ring_buffer.hpp:161-165 | head less tail less capacity, or zero |
| SpscRingBuffers.SpscRingBuffer.IsEmpty | platform/common/spsc_ring_buffer.hpp:167-169 | true exactly when the ring holds nothing |
| SpscRingBuffers.SpscRingBuffer.ValidateAllInvariants | platform/common/spsc_ring_buffer.hpp:176-216 | the five debug self-checks hold after every sequence of whole calls |
| SpscRingBuffers.SpscRingBuffer.Conservation | platform/common/spsc_ring_buffer.hpp:194-201 | items pushed are those popped, those counted as dropped, those overwritten uncounted, and those in the ring |
| CaptureProtocol.SaturationIsNotForgotten | platform/mac/mac_event_tap.cpp:166-200 | in every interleaving of enqueueing with the loop, at each loop head the bitmap is stale exactly while a recovery is pending, a pending recovery still has the flag up, and no resynchronization is half done |
| CaptureProtocol.StateEventsConserved | platform/mac/dual_channel_spsc.cpp:13-21 | in every interleaving the state events handed on and those waiting are the accepted ones in order, and the refusal counter lags by at most the one refusal under way |
| CaptureProtocol.RefusalAnsweredIff | platform/mac/mac_event_tap.cpp:180-195 | for a state event about to be refused while the loop runs: in every continuation its flag is up, or about to go up, until a new resynchronization begins, if and only if at the refusal no recovery is pending and the loop has not begun one |
| CaptureOnRing.RunsAreCaptureRuns | platform/mac/mac_event_tap.cpp:166-209 | with every access of the ring itself interleaved, each run is a run of the capture protocol over the channel the ring stands for |
| CaptureOnRing.StepSimulates | platform/mac/mac_event_tap.cpp:166-209 | each step is the step of the capture protocol or brings it strictly nearer, so no push or pop goes on for ever without its outcome |
| CaptureOnRing.CaptureInvariantHolds | platform/mac/mac_event_tap.cpp:166-209 | every state reached over the ring has what the results about the loop and about refusals ask of a state |
| CaptureOnRing.SaturationIsNotForgotten | platform/mac/mac_event_tap.cpp:166-200 | so the facts at each loop head hold over the ring itself |
| CaptureOnRing.StateEventsConserved | platform/mac/dual_channel_spsc.cpp:13-21 | and over the ring itself the events popped and those in it are the ones pushed, in order and at most a capacity waiting |
| CaptureOnRing.RefusalIsKept | platform/mac/mac_event_tap.cpp:180-195 | and a refusal before the decision keeps its flag up, or about to go up, until a resynchronization begins |
| CaptureOnRing.LoopHandsOn | platform/mac/mac_event_tap.cpp:171-209 | and, whatever the callback is in the middle of, the accesses of the loop alone hand on every event published so far, unless it has ended |
| CaptureProgress.AcceptedIffRoom | platform/mac/dual_channel_spsc.cpp:13-21 | in every interleaving an offered state event is accepted if and only if the ring has room when the callback pushes; otherwise it is refused, the flag goes up and the refusal is counted |
| CaptureProgress.LoopHandsOn | platform/mac/mac_event_tap.cpp:171-188 | wherever it stands, unless it has ended, the loop alone hands on every event accepted so far |
| CaptureProgress.StoppedLoopEnds | platform/mac/mac_event_tap.cpp:167-205 | told to stop, the loop alone hands on every event accepted so far and ends |
| CaptureProgress.EndMeansHandedOn | platform/mac/mac_event_tap.cpp:202-209 | in every run in which the loop has ended, exactly the events accepted before its end have been handed on |
| CaptureProgress.LateEventIsStranded | platform/mac/mac_event_tap.cpp:265-270 | and since the tap is removed only after that, a run accepts an event that nothing hands on any more |
| CaptureProtocol.LoopAnswers | platform/mac/mac_event_tap.cpp:180-183 | and once it is up in that case, at most six steps of the loop alone begin the resynchronization |
| CaptureProtocol.RefusalForgotten | platform/mac/mac_event_tap.cpp:185-193 | a run from the start with two refusals, the second during the drain, that ends with the flag down after one resynchronization |
| CaptureThread.DualChannelSpsc.Enqueue | platform/mac/dual_channel_spsc.cpp:13-28 | a state event is appended, or refused with flag and count raised exactly when its ring is full; any other event replaces the oldest of the data ring when full; the other ring is untouched |
| CaptureThread.TriggeredStaysBlocked | platform/mac/authoritative_resync.cpp:31-34 | after a trigger from outside no loop body resynchronizes again, whatever is refused, until a reset |
| CaptureThread.AuthoritativeResync.Resynchronize | platform/mac/authoritative_resync.cpp:36-51 | the queried modifiers are kept and returned, the bitmap is stale, the count is one higher, recovery is pending |
| CaptureThread.AuthoritativeResync.ConfirmRecovery | platform/mac/authoritative_resync.cpp:58-68 | confirms exactly a pending recovery and otherwise changes nothing |
| CaptureThread.AnsweredAgainAfterReset | platform/mac/authoritative_resync.cpp:70-74 | after a reset and until another trigger a loop body resynchronizes exactly if a refusal waits for it |
| CaptureThread.MacEventTap.DrainState | platform/mac/mac_event_tap.cpp:185-188 | every waiting state event is handed on in order, and the data ring is as before |
| CaptureThread.MacEventTap.CaptureBody | platform/mac/mac_event_tap.cpp:167-195 | one undisturbed loop body on the two real rings: events of both are handed on in order, the oldest one of the data ring among them, the queried modifiers are kept exactly if it resynchronized, and the saturation state is as the pure description says |
| CaptureThread.MacEventTap.EventCallback | platform/mac/mac_event_tap.cpp:82-102 | an event goes to the end of its ring: refused if it is a state event and that ring is full, in place of the oldest if it is another and that ring is full |
| CaptureThread.MacEventTap.FinalDrain | platform/mac/mac_event_tap.cpp:202-209 | every event waiting in either ring is handed on in order, and both are empty |
| CaptureThread.StateEventsPressOrRelease | platform/mac/dual_channel_spsc.cpp:5-11 | the lossless ring is for exactly the kinds that carry a button or a key: of the system events the tap listens for, all but motion and scrolling |
| CaptureThread.EveryRefusalIsAnswered | platform/mac/mac_event_tap.cpp:180-195 | with whole bodies, events, triggers and resets in any order: the resync count is the number of bodies that follow a refusal while no trigger is outstanding, the flag is up exactly while a refusal waits, and the bitmap is never left stale |
| LoggerProtocol.LogIsConserved | core/common/logger.cpp:166-201 | in every interleaving of submitters, worker and the starting and stopping thread: emitted, in hand and queued lines are the accepted non-empty lines in order; the queue is bounded; every submission is accepted, counted as dropped, or refused |
| LoggerRuns.AcceptedAreThoseLetIn | core/common/logger.cpp:166-174 | in every interleaving the accepted lines are, in order, those submitted between a start and the next stop while fewer than 4096 wait; the count of dropped lines is that of the submissions while 4096 wait, and those refused without a count came while the logger was not running |
| LoggerRuns.RunningIffStarted | core/common/logger.cpp:138-158 | the logger is running exactly from a start made while no stop was under way until the next stop |
| LoggerProtocol.StoppedMeansEmitted | core/common/logger.cpp:153-164 | once stop has joined the worker every accepted non-empty line has been emitted exactly once |
| LoggerProtocol.AllEmittedIffNoneEmpty | core/common/logger.cpp:197-199 | all accepted lines are emitted if and only if none is empty: an empty line is accepted and never reaches the sink |
| LoggerProtocol.EmptyLineVanishes | core/common/logger.cpp:197-199 | a run that accepts an empty line, stops, and has emitted nothing |
| LoggerProtocol.StopMakesProgress | core/common/logger.cpp:189-191 | after the running flag falls no submitter can delay the worker, and each of its steps brings its end nearer |
| LoggerRuns.WorkerEmitsAll | core/common/logger.cpp:185-201 | while the logger runs, or its stop waits for the worker, the worker alone empties the queue, and then exactly the accepted non-empty lines are out |
| LoggerRuns.StopEnds | core/common/logger.cpp:153-164 | a stop under way comes to its end by the steps of worker and stopping thread, with every accepted non-empty line out and the sink released |
| LoggerProtocol.Logger.Start | core/common/logger.cpp:138-151 | starts only a logger that is not running |
| LoggerProtocol.Logger.Submit | core/common/logger.cpp:166-174 | the step of the protocol: the line is queued exactly if the logger runs and fewer than 4096 wait, and a drop counted exactly on a full queue |
| LoggerProtocol.Logger.WorkerLoop | core/common/logger.cpp:185-201 | after the flag has fallen the worker empties the queue in order and ends |
| Framing.DeliveredIffLegal | core/s05_transport/transport_impl.cpp:412-440 | a list of payloads comes out of its stream exactly if and only if every length is between 1 and 65536 |
| Framing.WholeStreamDelivered | core/s05_transport/transport_impl.cpp:344-351 | followed by any bytes, a stream delivers all its payloads in order first |
| Framing.FirstIllegalEnds | core/s05_transport/transport_impl.cpp:418-421 | the first payload of length 0 or above 65536 ends the delivery, whatever comes after it |
| Framing.CutDeliversPrefix | core/s05_transport/transport_impl.cpp:411-432 | any bytes cut anywhere deliver a prefix of what the whole delivers |
| Framing.CutDeliversCompleteFrames | core/s05_transport/transport_impl.cpp:411-432 | a stream cut anywhere delivers exactly the frames that arrived complete |
| Framing.LengthRoundTrip | core/s05_transport/transport_impl.cpp:344-345 | the four length bytes give back the length |
| Framing.MostSignificantFirst | core/s05_transport/transport_impl.cpp:344-345 | of two lengths the larger differs first in a larger byte, which is network byte order |
| Framing.SendRaw | core/s05_transport/transport_impl.cpp:58-72 | success means all bytes went out in order however the socket splits them; failure means a strict prefix did; and it fails exactly if there is no socket or one of its calls moved nothing |
| Framing.RecvRaw | core/s05_transport/transport_impl.cpp:74-88 | success means exactly the next bytes were read however the socket splits them; failure means fewer were left or a receive broke |
| Framing.InputSender.Send | core/s05_transport/transport_impl.cpp:330-358 | on success one whole frame and the counters; otherwise a strict prefix of the frame and one more backlog; a connected sender fails exactly if a call moved nothing |
| Framing.InputSender.SendAll | core/s05_transport/transport_impl.cpp:330-358 | messages sent one after the other put a prefix of their stream on the wire, the whole exactly if every call moved something |
| Framing.InputReceiveLoop | core/s05_transport/transport_impl.cpp:403-442 | for every way the socket cuts its deliveries the payloads handed on are those of the bytes consumed, and of the whole stream if no receive broke |
| Framing.BrokenStreamDelivers | core/s05_transport/transport_impl.cpp:347-351 | a stream that breaks off inside a message delivers exactly the messages before it |
| Framing.Transfer | core/s05_transport/transport_impl.cpp:330-442 | sender and receiver together: for every splitting on both sides the payloads handed on are a prefix of the messages sent with success, all of them if no receive broke, and all messages if every call moves something |
| TextStream.UnsignedRoundTrip | core/s06_identity/node_identity_manager.cpp:86-104 | a decimal number is read back from the text it was printed to, also past one white space |
| TextStream.UnsignedLimits | core/s06_identity/node_identity_manager.cpp:97-104 | a number too large for its type is refused, and one behind a minus sign is taken from the bound |
| TextStream.SignedLimits | core/s06_identity/node_identity_manager.cpp:105-106 | a signed number is read exactly if it fits 32 bits |
| TextStream.WordRoundTrip | core/s06_identity/node_identity_manager.cpp:90-118 | a word without white space is read back |
| IdentityStore.Generated | core/common/domain.cpp:10-28 | a generated id is never null |
| IdentityStore.GeneratedBits | core/common/domain.cpp:10-28 | outside the version and variant bits it is the random words, and those bits are 4 and 2 |
| IdentityStore.LoadAfterPersistIff | core/s06_identity/node_identity_manager.cpp:81-127 | load after persist restores node id, epoch and topology name and segment, keeping what no file holds, if and only if the id is not null and the name is one non-empty word |
| IdentityStore.RefusedFiles | core/s06_identity/node_identity_manager.cpp:97-107 | a file that names the null id is refused as forged, one that is missing or empty as corrupt, and the identity stays as it was |
| IdentityStore.RecoveryAlwaysSound | core/s06_identity/node_identity_manager.cpp:136-193 | for every file content recovery ends with a non-null id, an epoch of at least 1, and an identity a file can hold, written exactly if something was repaired |
| IdentityStore.RecoveryRestores | core/s06_identity/node_identity_manager.cpp:136-193 | recovery over the file a storable identity was written to gives that identity back, only an epoch of 0 becoming 1, and leaves the file alone otherwise |
| IdentityStore.RegeneratedIff | core/s06_identity/node_identity_manager.cpp:136-193 | a new id is taken if and only if the file cannot be loaded, and then the epoch is 1 and there is no topology; otherwise what was loaded is kept |
| IdentityStore.SecondRecoveryIdleIff | core/s06_identity/node_identity_manager.cpp:136-193 | a second recovery repairs nothing and keeps the identity if and only if the first repaired nothing or could write its file |
| IdentityStore.OnlyEpochNeedsRepair | core/s06_identity/node_identity_manager.cpp:163-186 | after a successful load the null-id and empty-name checks never fire |
| IdentityStore.NodeIdentityManager.PersistFile | core/s06_identity/node_identity_manager.cpp:81-95 | result and file for every combination of identity, path and writability |
| IdentityStore.NodeIdentityManager.LoadFile | core/s06_identity/node_identity_manager.cpp:97-127 | result and identity, including what a failing load has already replaced |
| IdentityStore.NodeIdentityManager.RecoverFromCorruption | core/s06_identity/node_identity_manager.cpp:136-193 | identity, file and report together are those of the recovery the lemmas are about |
| TrustedStore.FindAfterAdd | core/s08_pairing/trusted_node_list.cpp:10-19 | adding replaces or adds that node and leaves every other entry findable as before |
| TrustedStore.FindAfterRemove | core/s08_pairing/trusted_node_list.cpp:21-26 | removing removes that node only |
| TrustedStore.AddIs | core/s08_pairing/trusted_node_list.cpp:10-19 | a node not listed is appended; of a listed one an entry is replaced where it stands |
| TrustedStore.RemoveOfTwo | core/s08_pairing/trusted_node_list.cpp:21-26 | removing works entry by entry and keeps the order of the others |
| TrustedStore.RemoveOne | core/s08_pairing/trusted_node_list.cpp:21-26 | an entry goes exactly if it is of that node |
| TrustedStore.ListIsLastWord | core/s08_pairing/trusted_node_list.cpp:10-26 | after any calls on an empty list no node has two entries, and a node has exactly the entry of the last call about it, if that call added it |
| TrustedStore.ListRoundTrip | core/s08_pairing/trusted_node_list.cpp:43-63 | the list read from a persisted file is the list, entries and order |
| TrustedStore.SoundIsAll | core/s08_pairing/trusted_node_list.cpp:76-90 | erasing keeps everything exactly when no entry has a null id or a zero pairing time |
| TrustedStore.SoundOfTwo | core/s08_pairing/trusted_node_list.cpp:76-85 | erasing works entry by entry and keeps the order |
| TrustedStore.SoundOne | core/s08_pairing/trusted_node_list.cpp:77 | an entry goes exactly if its id is null or its pairing time zero |
| TrustedStore.RecoveryKeepsSound | core/s08_pairing/trusted_node_list.cpp:65-93 | recovery over a file the list wrote gives back its sound entries, and reports a repair exactly if one was not |
| TrustedStore.SecondRecoveryIdleIff | core/s08_pairing/trusted_node_list.cpp:65-93 | a second recovery gives the same entries, and clears nothing if and only if there is a file and the first cleared nothing or could write it |
| TrustedStore.TrustedNodeList.AddEntry | core/s08_pairing/trusted_node_list.cpp:10-19 | the loop over the entries does what the lemmas are about |
| TrustedStore.TrustedNodeList.RemoveEntry | core/s08_pairing/trusted_node_list.cpp:21-26 | the erasing of one node does what the lemmas are about |
| TrustedStore.TrustedNodeList.FindEntry | core/s08_pairing/trusted_node_list.cpp:28-33 | the first entry of that node, if any |
| TrustedStore.TrustedNodeList.PersistFile | core/s08_pairing/trusted_node_list.cpp:43-51 | the file afterwards is the rendering of the list |
| TrustedStore.TrustedNodeList.LoadFile | core/s08_pairing/trusted_node_list.cpp:53-63 | the reading loop yields the list the text stands for and stops at the first unreadable entry |
| TrustedStore.TrustedNodeList.RecoverFromCorruption | core/s08_pairing/trusted_node_list.cpp:65-93 | the in-place erasing loop leaves the sound entries in order, and rewrites the file exactly if it erased some |
| TopologyCommit.VersionIsLastFullCommit | core/s09_membership/topology_version_manager.cpp:29-90 | after any run of calls the current version is that of the last proposal whose five steps follow each other without another proposal, abort or coordinator loss between them |
| TopologyCommit.VersionChangesOnlyOnFullCommit | core/s09_membership/topology_version_manager.cpp:57-66 | the only call that ever changes the version is an activation completing all five steps of the proposal it installs |
| TopologyCalls.CommitGoesThrough | core/s09_membership/topology_version_manager.cpp:29-66 | on the authority itself, online and with no commit in flight, whatever was called before: the five steps are all accepted, the proposed version is then current and active, and nothing else has changed |
| TopologyCalls.RefusedIff | core/s09_membership/topology_version_manager.cpp:8-66 | exactly when each call is refused and why, told from the calls before: who was named authority first and local last, whether the coordinator was last reported back, and how many steps the commit in flight has made |
| TopologyCalls.ProgressIff | core/s09_membership/topology_version_manager.cpp:29-55 | that number of steps is the number with which the accepted calls end |
| TopologyCalls.BreakingOffFrees | core/s09_membership/topology_version_manager.cpp:68-82 | after an abort or a loss of the coordinator no commit is in flight |
| TopologyCommit.PendingExactlyInFlight | core/s09_membership/topology_version_manager.cpp:29-82 | a proposal is pending in exactly the four intermediate states; locked means offline; the coordinator is the authority |
| TopologyCommit.AuthorityIsWriteOnce | core/s09_membership/topology_version_manager.cpp:13-27 | an authority once set survives every later run of calls |
| TopologyCommit.ProposerIsAuthority | core/s09_membership/topology_version_manager.cpp:29-36 | a node that keeps its id gets a proposal accepted only if it is the authority |
| TopologyCommit.OthersKeepFirstVersion | core/s09_membership/topology_version_manager.cpp:92-107 | a node that is not the authority never changes its version |
| TopologyCommit.OneCommitter | core/s09_membership/topology_version_manager.cpp:13-107 | of two nodes with different fixed ids and the same authority at most one ever changes its version |
| TopologyCommit.OfflineStandsStill | core/s09_membership/topology_version_manager.cpp:75-90 | from the loss of the coordinator until its return no proposal is pending, no call but abort and a repeated loss is accepted among those that move a commit, and the version stands still |
| Handshakes.PeersRest | core/s08_pairing/handshake_orchestrator.cpp:21-92 | in runs through the orchestrator a peer rests only in five of the nine states, and a member has both halves done |
| Handshakes.CompleteIsAllOrNothing | core/s08_pairing/handshake_orchestrator.cpp:65-77 | completing succeeds if and only if both halves are done and the peer is trusted, then makes it a member, and otherwise changes nothing |
| Handshakes.RollbackLeavesNothing | core/s08_pairing/handshake_orchestrator.cpp:79-92 | after a rollback the peer is discovered, or rejected if it was, is not trusted, and is not complete |
| Handshakes.MarkIffGivenAndKept | core/s08_pairing/handshake_orchestrator.cpp:21-92 | for trusted-list membership, each of the states pairing, trusted, member and rejected, being known, having a handshake, and either half of it: a peer shows it if and only if some earlier call gave it and no later call took it away, with the giving and taking calls listed; so it is in the trusted list exactly when it answered a pairing with yes and no rollback came after, and the pairing half is done exactly when it answered, yes or no, after a handshake was begun and no rollback came since |
| HandshakeCalls.RefusedIff | core/s08_pairing/handshake_orchestrator.cpp:21-77 | exactly when each call is refused and why, in terms of those marks |
| HandshakeCalls.OrdinaryHandshakeSucceeds | core/s08_pairing/handshake_orchestrator.cpp:21-77 | whatever was called before, for a peer that is not trusted, a member or rejected: initiation, positive answer, positive registration and completion all succeed and make a member that is in the trusted list with the time and epoch of its answer |
| HandshakeCalls.FirstHandshakeSucceeds | core/s08_pairing/handshake_orchestrator.cpp:21-77 | in particular from the start, for every peer and every code |
| Handshakes.TransitionsClimb | core/s08_pairing/pairing_fsm.cpp:20-44 | a pairing stays, climbs one rung of seven, is rejected up to pairing, rolled back from pairing on, or comes back to the foot |
| Handshakes.OtherPeersUntouched | core/s08_pairing/handshake_orchestrator.cpp:21-92 | no call changes anything held about another peer |
| Handshakes.RejectedStillListed | core/s08_pairing/handshake_orchestrator.cpp:36-51 | a concrete run leaves a rejected peer in the trusted list |
| Handshakes.MemberNeedNotBeTrusted | core/s08_pairing/handshake_orchestrator.cpp:36-51 | a negative answer counts as the pairing half, so a concrete run makes a member that is not in the trusted list |
| EvidenceCorrelation.PassIff | integration/e2e_evidence_collector.cpp:125-129 | the check passes if and only if captured and injected ids are the same, without gap, and per id the last records have equal payload and a strictly later injection |
| EvidenceCorrelation.CountsAddUp | integration/e2e_evidence_collector.cpp:87-123 | matched and unmatched add up to the distinct ids of each side; with both sides present the missing ids are the range less the union |
| EvidenceCorrelation.CountsAreOfRecords | integration/e2e_evidence_collector.cpp:87-110 | each count is that of the ids with the records it speaks of: on both sides, on one only, differing in payload, or not later when injected |
| EvidenceCorrelation.ReasonNamesFirstDefect | integration/e2e_evidence_collector.cpp:131-141 | which of the four defects the reason names, in terms of the records |
| EvidenceCorrelation.GapLoopEndsIff | integration/e2e_evidence_collector.cpp:117-122 | in 64-bit arithmetic the loop over the ids ends if and only if the largest id is not the largest number |
| EvidenceCorrelation.LastIsLatest | integration/e2e_evidence_collector.cpp:73-79 | the maps hold the last record of each event |
| EvidenceCorrelation.LatestIsLast | integration/e2e_evidence_collector.cpp:73-79 | and nothing else |
| EvidenceCorrelation.E2EEvidenceCollector.VerifyCorrelation | integration/e2e_evidence_collector.cpp:65-144 | the loops compute the verdict the lemmas are about, given that the gap loop ends |
| EvidenceCorrelation.E2EEvidenceCollector.CountMissing | integration/e2e_evidence_collector.cpp:112-123 | the ids of the range that neither side recorded |
| Bitmaps.WithBitIs | platform/common/platform_ports.hpp:63-68 | setting or clearing one bit changes that bit only |
| Bitmaps.WithBitWeighs | platform/common/platform_ports.hpp:63-68 | it adds or takes away the weight of that bit exactly if it was not so already, as the bitwise operations do |
| Bitmaps.OnesArePositions | platform/common/platform_ports.hpp:71-76 | shifting all ones out counts the set positions |
| Bitmaps.OnesArePressedKeys | platform/common/platform_ports.hpp:105-112 | the ones of the four words are as many as the pressed keys |
| Bitmaps.CountOnes | platform/common/platform_ports.hpp:71-76 | the shift loop counts the ones |
| Bitmaps.MouseButtonBitmap.SetPressed | platform/common/platform_ports.hpp:63-65 | that button is pressed afterwards if it is below eight, every other as before |
| Bitmaps.MouseButtonBitmap.ClearPressed | platform/common/platform_ports.hpp:66-68 | that button is released, every other as before |
| Bitmaps.MouseButtonBitmap.Count | platform/common/platform_ports.hpp:71-76 | the number of pressed buttons |
| Bitmaps.WithKey | platform/common/platform_ports.hpp:88-99 | one key set or cleared in the four words changes that key only, and nothing for codes past 255 |
| Bitmaps.KeyCodeBitmap.SetPressed | platform/common/platform_ports.hpp:88-93 | that key is pressed afterwards, every other as before |
| Bitmaps.KeyCodeBitmap.ClearPressed | platform/common/platform_ports.hpp:94-99 | that key is released afterwards, every other as before |
| Bitmaps.KeyCodeBitmap.Count | platform/common/platform_ports.hpp:105-112 | the number of pressed keys |
| ReleaseExecutor.InjectionsArePrefix | platform/mac/release_all_pressed_executor.cpp:33-81 | the injections release a prefix of the pressed buttons then keys in ascending order, each once, with consecutive ids; all of them unless stopped |
| ReleaseExecutor.EachReleasesItsTarget | platform/mac/release_all_pressed_executor.cpp:40-45 | each injected event releases its own target and carries the next id, the start time and the given source |
| ReleaseExecutor.TargetsArePressed | platform/mac/release_all_pressed_executor.cpp:33-59 | what is to be released is exactly what is pressed, nothing twice |
| ReleaseExecutor.ClockIsObeyed | platform/mac/release_all_pressed_executor.cpp:35-54 | each injection directly follows a clock reading before the deadline; the execution stops exactly at the first reading at or past it |
| ReleaseExecutor.ReadingsAndAnswersInTurn | platform/mac/release_all_pressed_executor.cpp:35-81 | every reading is the next of the clock and every injection has the next answer, none left out |
| ReleaseExecutor.ResultIsExact | platform/mac/release_all_pressed_executor.cpp:90-101 | unless an earlier execution ended at its deadline: success if and only if no reading reached the deadline and every pressed bit was injected with success; degraded if and only if none was |
| ReleaseExecutor.DeadlineIsSticky | platform/mac/release_all_pressed_executor.cpp:90-104 | over every history of executions the result is that the deadline was reached if and only if it was in some execution so far |
| ReleaseExecutor.ResultSpeaksOfLastIff | platform/mac/release_all_pressed_executor.cpp:90-104 | an execution reports what it would report on a new executor if and only if it was stopped itself or none before it was |
| ReleaseExecutor.ButtonsArePressed | platform/mac/release_all_pressed_executor.cpp:33-34 | the button loop visits exactly the pressed buttons, ascending |
| ReleaseExecutor.KeysArePressed | platform/mac/release_all_pressed_executor.cpp:58-59 | the key loop visits exactly the pressed keys, ascending |
| ReleaseExecutor.ReleaseAllPressedExecutor.Execute | platform/mac/release_all_pressed_executor.cpp:17-105 | clock readings, injections, result and counters of one execution over the two bitmaps |
| TxtRecord.RoundTripIff | core/s07_discovery/mdns_announcer.cpp:366-377 | parsing what was encoded gives back the entries of at most 255 bytes if and only if none of their keys holds an equals sign |
| TxtRecord.AllBackIff | core/s07_discovery/mdns_announcer.cpp:366-377 | all entries come back if and only if each has at most 254 bytes in key and value and no key holds an equals sign |
| TxtRecord.KeptOfTwo | core/s07_discovery/mdns_announcer.cpp:368-371 | entries are kept one by one, in order |
| TxtRecord.KeptOne | core/s07_discovery/mdns_announcer.cpp:370-371 | an entry is kept exactly if its key and value have at most 254 bytes |
| TxtRecord.KeptAllIff | core/s07_discovery/mdns_announcer.cpp:368-371 | all are kept if and only if each has at most 254 bytes in key and value |
| TxtRecord.ParseEncoded | core/s07_discovery/mdns_listener.cpp:263-278 | in any case it gives the entries that fit, each split at its first equals sign, and nothing for the single zero byte |
| TxtRecord.ParseAnyEntry | core/s07_discovery/mdns_listener.cpp:266-277 | any entry, also an empty one or one without an equals sign, is passed over, and one without an equals sign stands for nothing |
| TxtRecord.ParseCut | core/s07_discovery/mdns_listener.cpp:266-270 | a record cut anywhere yields exactly the entries that are whole |
| TxtRecord.AnnouncedInFullIff | core/s07_discovery/mdns_announcer.cpp:307 | a record announced with its length cut to sixteen bits is read in full if and only if it is shorter than 65536 bytes |
| TxtRecord.AnnouncedLength | core/s07_discovery/mdns_announcer.cpp:307 | what is read of it are the entries that are whole within the cut length, which are all of them exactly below 65536 bytes |
| TxtRecord.ReceivedIff | core/s07_discovery/mdns_listener.cpp:273-276 | a pair survives the split exactly if its key has no equals sign |
| TxtRecord.EncodeTxt | core/s07_discovery/mdns_announcer.cpp:366-377 | the loop produces the record the lemmas are about |
| TxtRecord.ParseTxt | core/s07_discovery/mdns_listener.cpp:263-278 | on any bytes the loop ends, stays within the given length, and yields what the record stands for |
| ResyncGate.AllowedIffAllRestored | integration/disconnect_resync_coordinator.cpp:42-118 | after any run input is allowed if and only if every lost link reported while started was followed by a connection whose recovery was confirmed; the gate rests in three of its five states |
| ResyncGate.CallsMatchCounters | integration/disconnect_resync_coordinator.cpp:63-118 | one release-all per lost link, one resync per lost link and per reconnection of a link not restored, every state entered announced once, and the recovery counter is exactly the number of refused confirmations |
| ResyncGate.StartedIff | integration/disconnect_resync_coordinator.cpp:25-45 | link reports count exactly from a start until the next stop |
| ResyncGate.AnnouncedIsState | integration/disconnect_resync_coordinator.cpp:63-68 | the state announced last is the state |
| ResyncGate.CallsAreInOrder | integration/disconnect_resync_coordinator.cpp:63-118 | everything is released right after a loss is announced, and the gate is announced open right after a confirmed recovery |
| ResyncGate.ConnectingIsIdle | integration/disconnect_resync_coordinator.cpp:86-90 | a report of connecting never has any effect |
| Geometry.BoundingBoxIsLeast | platform/mac/native_coord_normalizer.cpp:25-46 | a box contains every display if and only if it contains the bounding box |
| Geometry.EventIsSeenDistance | platform/mac/edge_detector.cpp:5-36 | for every point and box the event is the distance of the point, as seen through 32-bit differences, to the side of the box so seen, at its height |
| Geometry.EventIsDistance | platform/mac/edge_detector.cpp:5-36 | where sizes and distances fit 32 signed bits that is the true distance: a point left or right of the box at its height gives exactly it, any other point no event |
| Geometry.NoFalseEventIff | platform/mac/edge_detector.cpp:12-35 | for merged sides below 2^32, points on the displays are never reported as having left them if and only if the width is below 2^31 or the height is 0 or at least 2^31 |
| Geometry.OnADisplayNoEvent | platform/mac/edge_detector.cpp:15-35 | at such sizes a point on any display gives no event |
| Geometry.CornerIsQuietIff | platform/mac/edge_detector.cpp:12 | the corner of any box is quiet if and only if its sides, cut to 32 bits, meet that condition |
| Geometry.MergesAgreeIff | platform/mac/multi_display_merge_policy.cpp:32-50 | for displays whose origins are unsigned 32-bit numbers, which is all a boundary can hold, merging with 32-bit sums agrees with the bounding box if and only if wrapping leaves the largest right and bottom edges the largest |
| Geometry.MergesAgree | platform/mac/multi_display_merge_policy.cpp:32-50 | in particular whenever no origin is negative and no edge passes 32 bits |
| Geometry.MergesDifferOnOverflow | platform/mac/multi_display_merge_policy.cpp:39-46 | two concrete displays for which they differ |
| Geometry.UndeclaredIsSilent | platform/mac/multi_display_merge_policy.cpp:52-76 | several displays without a declared merge give no edge event for any cursor |
| Geometry.SingleDisplayIsItsBox | platform/mac/multi_display_merge_policy.cpp:59-61 | a single display needs no declaration: its boundary is that of its bounding box, wherever it lies |
| Geometry.ComputeBoundingBox | platform/mac/native_coord_normalizer.cpp:25-46 | the loop computes the bounding box |
| Geometry.MergeBoxesOf | platform/mac/multi_display_merge_policy.cpp:32-50 | the loop computes the merged boundary with its wrapping sums |
| Geometry.MergePolicyConfig.MergeAll | platform/mac/multi_display_merge_policy.cpp:52-76 | the boundary for every policy and number of displays |

## Left out

- Memory order: shared accesses are sequentially consistent; relaxed, acquire and release orderings of the C++ memory model are not part of this model.
- Counters of the ring (head, tail, sequence numbers, versions) are unbounded, which is the program below 2^64 pushes; only the two subtractions that the code compares with the capacity wrap.
- The linearization-point callbacks of the ring and the NDEBUG switch are diagnostics and are not modelled; the ring is that with no callback set.
- AtomicPayloads.UnpackPack: bytes are placed in a word as on a little-endian machine.
- CaptureProtocol.SaturationIsNotForgotten: the data ring, whose draining is in `CaptureThread.MacEventTap.FinalDrain`, and `trigger`, `reset` and `markBitmapStale` from outside are not interleaved; that the lossless ring may appear as a queue is `CaptureOnRing.RunsAreCaptureRuns`.
- CaptureThread.MacEventTap.CaptureBody: the normalizer behind `processEvent` is not modelled; events are recorded as handed on.
- CaptureThread.EveryRefusalIsAnswered: loop bodies, callbacks and outside calls are whole; the interleaved case is `CaptureProtocol.RefusalAnsweredIff`. Of the outside calls, `resynchronize`, `confirmRecovery` and `markBitmapStale` are not among the happenings.
- CaptureProtocol.RefusalAnsweredIff: while the loop is running; once it has been told to stop, the final drain hands on what waits and begins nothing.
- CaptureProgress.LateEventIsStranded: within one run of the capture loop; a later start of the tap, which would find the event, is not modelled.
- LoggerProtocol.LogIsConserved: `start` and `stop` come from one controlling thread; waiting on the condition variable, `flush` from other threads and the building of the JSON text are not modelled.
- LoggerProtocol.Logger.Start: asks that no other thread is inside `stop`; before its join the program would end on assigning to a thread that can still be joined, and a start between the join and the reset of the sink is not modelled.
- LoggerProtocol.Logger.WorkerLoop: only the loop after the running flag has fallen, since before that it need not end; the steps before are in `LogIsConserved`.
- Framing.InputReceiveLoop: the client's loop; accepting a new connection as a server, the `receiving_` flag, the event handler's own work, and the serialisation of structures into payloads are not modelled, and a failed send or receive is final.
- Framing.InputSender.Send: messages whose length does not fit 32 bits are outside the wire format; the backlog and sent counters are unbounded.
- IdentityStore.LoadAfterPersistIff: left and right neighbour, key, capabilities and addresses are never written by the program, so they are kept as they were in memory or left empty; locale-dependent number formatting is not modelled.
- IdentityStore and TrustedStore: a file is read and written whole, and a file that opens for writing is written completely; the log texts of a recovery are left out.
- TopologyCommit.VersionIsLastFullCommit: the membership entries of a proposal are opaque.
- Handshakes: peers and handshakes are maps by node id instead of vectors searched from the front, so their order is not captured; the registration request and the response structures, which change none of this state, are left out.
- EvidenceCorrelation.E2EEvidenceCollector.VerifyCorrelation: asks that the gap loop ends, which is what `GapLoopEndsIff` characterises; ids are visited in any order, as only counts result, and the mutex is left out.
- ReleaseExecutor.ReleaseAllPressedExecutor.Execute: clock readings and injection results are given in advance as functions of their number; the event id counter shared by all executors is a starting value; modifiers and the stale mark of the snapshot, which it does not read, are left out.
- Bitmaps.MouseButtonBitmap.SetPressed: shifts by 32 or more, undefined in C++, behave here as shifts by 8 to 31 do.
- TxtRecord: registration and browsing with the system's discovery service.
- ResyncGate: link events are handled one at a time; the release result, the pressed state passed to it and the configured time limits, which decide nothing, are left out.
- Geometry.MergesAgreeIff: displays with a negative origin, or one of 2^32 or more, cannot be written as boundaries and are not compared.
- Geometry.NoFalseEventIff: boxes with a side of 2^32 or more, where the size wraps as well and the answer depends on where the displays lie, are covered only by `Geometry.EventIsSeenDistance`.
- Geometry: coordinates and the sums of origin and size are unbounded where the program uses 64 bits, negating the smallest 32-bit number and subtracting a width that looks negative, where either leaves 32 signed bits and is undefined in C++, give the unsigned distance, and the single-display normalisation with its flipped axis and the scaling to points are left out.
- Sockets, permission guards, event taps, injectors, display queries and service registration of the operating systems.
- Handoff, topology manager and coordinate mapper, of which only interfaces exist; session fence, discovery table, latency statistics, evidence matrix and error-code tables, which would only add easy members.
