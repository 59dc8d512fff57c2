# Verified models of Kiana's bridge, governance and roadmap code

Each module models one part of the repository and proves what that part is for. Code that updates
state in place is a class or a loop; every such method is proved equal to a function of the old
state, and the theorems are about runs of those functions.

- `StreamEvents.dfy`, `Coalescing.dfy`, `Thinning.dfy`: the accumulator that merges streamed text
  deltas, what its output means to a reader, and which order it keeps.
- `StreamText.dfy`: which text belongs to which message block, said over the members of the payloads
  alone, and the accumulator held against it.
- `Batching.dfy`: the upload queues for client events and delivery updates.
- `BridgeTransport.dfy`, `BridgeRuns.dfy`: the worker handle that composes accumulator and queues, and
  its properties over every run, with every call free to fail.
- `BridgeText.dfy`, `BridgeOutcomes.dfy`: the texts the client is handed in a run, and what the calls
  report, to whom and when.
- `UuidWindow.dfy`: echo and duplicate suppression of the session-ingress transport.
- `Roadmap.dfy`: depth-first validation of the step graph, closures and readiness.
- `Ancestry.dfy`, `EvidenceChain.dfy`: the revision validator, the loader, the builders, and the
  sealed evidence records.
- `BoundedCapture.dfy`, `Descriptors.dfy`: bounded pipe reading and descriptor closing in the
  governance supervisor.
- `Discovery.dfy`: admission of discovered tools.

The functions that specify a method are themselves held against statements over raw members and
positions (`StreamText.WritesExactly`, `UuidWindow.NextIsDelivered`, `BoundedCapture.CaptureByPosition`,
`Discovery.ReportIsExact`, `Descriptors.ClosedExactly`, the lemmas named `..FailsExactly` and
`..ErrorsSay`). All inductions are written out; automatic induction is switched off for every lemma.

## How the outside world enters

- Network calls succeed or fail by a function from the number of the call (`accepts`,
  `reportAccepts`); every lemma that does not say otherwise holds for all such functions. The client
  keeps everything it was handed, accepted or not.
- Clocks are parameters. A pipe's behaviour is a finite schedule of read events; a schedule that
  has run out leaves the reader reading, so every point of an endless schedule is covered.
- SHA-256 over canonical JSON is a function parameter, and tamper evidence requires it to be
  injective. Serialized size is a function parameter.
- JSON values are records of the members the code reads, with absent and wrongly typed members kept
  apart where the code tells them apart.

## What turned out differently from the documentation

- Merging deltas keeps the meaning of a stream unless one message is written, started again and
  written again between two flushes. `RestartLosesText` gives the input,
  `MergingPreservesMeaningExactly` the exact condition, `CoalescingPreservesMeaning` the case the
  protocol intends (no id is started twice).
- `kiana-capability-broker/src/discovery.rs` documents that the most serious refusal is reported, in
  the order of `precedence`. The code asks the catalog before the namespace (`CatalogAskedFirst` gives
  an input), and notices too many candidates last (`TooManyNoticedLast`). `MostSeriousExactly` and
  `RequestMostSeriousExactly` say when the promise holds. The module comment (lines 43-45) also says
  that an effect escalation is reported before a missing capability. The code never does that, in
  agreement with `precedence`: `EscalationReportedExactly` says when an escalation is reported, and
  `EscalationReportedAsMissingCapability` gives an input.
- A stream is identified by session and parent joined with a colon (transport.rs:909), so session "a"
  under parent "b:" and session "a:b" without a parent are one stream to the accumulator.
  `ScopesEqualExactly` says exactly which streams coincide, `PlainSessionsAreApart` that sessions without
  a colon never do, and `ConfusedStreamsMix` gives the input on which text of one stream is added to
  a message of the other. `Together` in the statements about texts stands for this relation.
- A posted uuid that is posted again does not get younger (`RepostingDoesNotRefresh`): the windows
  are first-in first-out over insertions.
- The governance loader follows predecessor paths, the validator predecessor ids. An accepted list
  can be loaded in another order than it is linked (`PathOrderCanDiffer`, `LoadedOrderExactly`).
- The receipt reader gives up on an interruption behind the last permitted byte where the other
  reader retries (`ReceiptReaderIsStricter`, `ReceiptFailsExactly`).
- The after-fork closer does not filter its descriptors. A negative one would make it close the kept
  ones (`KeptClosedExactly`, with `NegativeClosesKept` as an input), and a kept descriptor below 3
  opens the way to closing standard descriptors above it (`RangesCloseExactly`,
  `LowKeptClosesStandard`). Its only caller (lib.rs:1554) passes the descriptors of four open files, so
  a negative one cannot reach it from there.

## Model

| member | source | states |
|---|---|---|
| StreamEvents.StreamEventAccumulator.Push | kiana-bridge/src/transport.rs:781-786 | a payload joins the end of the buffer; the waiting clock starts with the first one only |
| StreamEvents.StreamEventAccumulator.Flush | kiana-bridge/src/transport.rs:794-798 | the whole buffer is taken and merged, and the clock stops |
| StreamEvents.StreamEventAccumulator.Accumulate | kiana-bridge/src/transport.rs:800-859 | the loop with its in-place rewriting of earlier outputs computes the fold the theorems are about |
| StreamEvents.StreamEventAccumulator.ClearForCompletedAssistantPayload | kiana-bridge/src/transport.rs:861-881 | a completed message loses its text and its scope, by scope if the payload has one, else everywhere |
| StreamEvents.AbsorbAllNoLeak | kiana-bridge/src/transport.rs:804-816 | a flush keeps no text for a message that no scope is streaming |
| StreamEvents.CompleteNoLeak | kiana-bridge/src/transport.rs:861-881 | nor does completing a message, with matching or mismatched scopes |
| StreamEvents.NoLeakedStreamState | kiana-bridge/src/transport.rs:804-881 | over every sequence of pushes, flushes and clears, repeated ids included, no stream state leaks |
| Coalescing.ChangeLastWord | kiana-bridge/src/transport.rs:846-851 | overwriting the snapshot at the last place that writes a block changes that block alone, and nothing if its message starts again later |
| Coalescing.Simulate | kiana-bridge/src/transport.rs:800-859 | after every part of a buffer the tables hold what an appending reader knows, and the two readers differ exactly on lost blocks |
| Coalescing.FlushAgreesExactly | kiana-bridge/src/transport.rs:800-859 | overwriting with the merged output and appending the raw deltas give the same texts if and only if no block is written, restarted and written again in the buffer |
| Coalescing.MarksMean | kiana-bridge/src/transport.rs:802-851 | the condition in terms of positions: a write, then a start of its message, then a write with no later start |
| Coalescing.StartsOnceSuffices | kiana-bridge/src/transport.rs:806-816 | ids started at most once cannot meet the condition, whatever was flushed before |
| Coalescing.RestartLosesText | kiana-bridge/src/transport.rs:806-851 | a concrete buffer on which merging loses text |
| Thinning.AbsorbAllThins | kiana-bridge/src/transport.rs:800-859 | a flush only leaves out text deltas of the same index and block as an earlier kept delta, keeps the order of everything else, and gives each kept delta the text its block has after the last delta it absorbed |
| Thinning.SameNotes | kiana-bridge/src/transport.rs:818-845 | in a buffer the tables route each delta to the block, and to the full text, that a reader of the raw deltas arrives at |
| Thinning.ReaderNotesAt | kiana-bridge/src/transport.rs:818-845 | what these notes are: the block a delta writes after everything before it, and the text appended to it so far |
| Thinning.ThinnedAppend | kiana-bridge/src/transport.rs:378-384 | this composes over flushes |
| Thinning.NothingOvertakes | kiana-bridge/src/transport.rs:252-256 | a payload that is not a stream event is kept unchanged, with exactly the earlier kept payloads before it |
| StreamText.ScopesEqualExactly | kiana-bridge/src/transport.rs:902-910 | two payloads get one scope key if and only if session and parent are the same, or one session goes on behind a colon where the other ends and the parents make up for it |
| StreamText.PlainSessionsAreApart | kiana-bridge/src/transport.rs:902-910 | with sessions without a colon only the same session and parent coincide |
| StreamText.ConfusedStreamsMix | kiana-bridge/src/transport.rs:902-910 | a concrete start and delta of two streams, the text of one added to the message of the other |
| StreamText.WritesExactly | kiana-bridge/src/transport.rs:818-845 | without a twice started id a payload writes block (m, i) if and only if it is a readable text delta with index i and the latest start in its session and parent is that of m, not completed since |
| StreamText.ReaderCollects | kiana-bridge/src/transport.rs:827-852 | the text of a block is the concatenation, in order, of the texts of exactly those deltas |
| StreamText.AccumulatorCollects | kiana-bridge/src/transport.rs:800-859 | after a flush the tables hold exactly the open messages, and for each of their blocks exactly that text |
| StreamText.NotesAreRight | kiana-bridge/src/transport.rs:818-845 | the note of each delta names the block that its members say, with the text collected up to it |
| StreamText.AbsorbedSameStream | kiana-bridge/src/transport.rs:827-852 | a delta is only absorbed into one of its own index, session and parent |
| StreamText.CompleteMeans | kiana-bridge/src/transport.rs:861-881 | a completed message loses its blocks, and its scope entry: only under its own session and parent where they can be read, else everywhere; nothing else changes |
| Batching.FirstBatchIsLongest | kiana-bridge/src/transport.rs:545-563 | a batch is the longest front part of the queue within the count and byte limits, one oversized event allowed, and is never empty |
| Batching.FirstBatchExactly | kiana-bridge/src/transport.rs:545-563 | the same in counts: at least one event, at most the batch size, within the byte limit unless it is a single event, and one event more would break a limit or is not there |
| Batching.BatchesSplit | kiana-bridge/src/transport.rs:535-543 | the batches are the queue, cut in order |
| Batching.BatchesFit | kiana-bridge/src/transport.rs:545-563 | every batch is nonempty and within the limits |
| Batching.GreedyStaysAhead | kiana-bridge/src/transport.rs:535-563 | at every position the greedy cut needs no more batches than any split that is behind it |
| Batching.GreedyIsOptimal | kiana-bridge/src/transport.rs:535-563 | no in-order split of the queue into acceptable batches uses fewer batches |
| Batching.FlushConserves | kiana-bridge/src/transport.rs:535-543 | under any failures what was handed over followed by the queue stays the same sequence; success empties the queue |
| Batching.FlushHandsBatches | kiana-bridge/src/transport.rs:535-543 | exactly the greedy batches up to and including the first failing call are handed over |
| Batching.FlushFailsExactly | kiana-bridge/src/transport.rs:535-543 | a flush is done if and only if every batch of the queue was accepted; it reports a failed write if and only if its last call was not accepted, and makes no call after that |
| Batching.UploadConserves | kiana-bridge/src/transport.rs:499-513 | a front part of the new events is taken, in order and once, all of them on success, and the queue stays within its limit |
| Batching.UploadFailsExactly | kiana-bridge/src/transport.rs:499-513 | an upload reports a failed write if and only if some call it made was not accepted, and makes none without events |
| Batching.UploadHandsBatches | kiana-bridge/src/transport.rs:508-511 | with working calls an empty queue hands over exactly the greedy batches of each stretch that fills the queue, one after the other |
| Batching.BackpressureExactly | kiana-bridge/src/transport.rs:508-533 | backpressure fires if and only if something waits from an earlier failure and, with all new events, exceeds the queue limit; without failures never |
| Batching.ClientEventUploader.EnqueueAndFlush | kiana-bridge/src/transport.rs:499-513 | the chunk loop computes the upload the conservation lemmas are about |
| Batching.ClientEventUploader.Enqueue | kiana-bridge/src/transport.rs:515-533 | all or nothing: refused exactly when the queue limit would be exceeded |
| Batching.ClientEventUploader.Flush | kiana-bridge/src/transport.rs:535-543 | the loop computes the flush the conservation lemmas are about, and terminates |
| Batching.ClientEventUploader.TakeBatch | kiana-bridge/src/transport.rs:545-563 | the loop takes the longest acceptable front part and leaves the rest |
| Batching.CountedBatch | kiana-bridge/src/transport.rs:463-466 | delivery batches are cut by count alone |
| Batching.DeliverConserves | kiana-bridge/src/transport.rs:414-451 | updates are taken all or none, success leaves less than a batch waiting, and refusal means they could never fit |
| Batching.DeliverFailsExactly | kiana-bridge/src/transport.rs:414-431 | a delivery reports a failed call if and only if some call it made was not accepted, and makes none without updates |
| Batching.DeliverWaits | kiana-bridge/src/transport.rs:423-430 | updates that do not fill a batch wait without a call |
| Batching.DeliveryUpdateUploader.EnqueueAndFlushIfFull | kiana-bridge/src/transport.rs:414-431 | the call computes the delivery the conservation lemma is about |
| Batching.DeliveryUpdateUploader.Flush | kiana-bridge/src/transport.rs:453-461 | the loop hands over the queue in counted batches until a call fails |
| Batching.DeliveryUpdateUploader.TakeBatch | kiana-bridge/src/transport.rs:463-466 | the front of the queue up to the batch size |
| BridgeTransport.CcrV2TransportHandle.ReportWorkerState | kiana-bridge/src/transport.rs:302-315 | a plain repetition is not reported, and a failed report changes nothing but the record of calls |
| BridgeTransport.CcrV2TransportHandle.FlushStreamEventBuffer | kiana-bridge/src/transport.rs:368-384 | the buffer is released to the queue |
| BridgeTransport.CcrV2TransportHandle.FlushExpiredStreamEvents | kiana-bridge/src/transport.rs:361-366 | the same, if the oldest event has waited long enough |
| BridgeTransport.CcrV2TransportHandle.Send | kiana-bridge/src/transport.rs:238-261 | stream events are buffered, others follow the released buffer into the queue, each failure stops where the code stops |
| BridgeTransport.CcrV2TransportHandle.Recv | kiana-bridge/src/transport.rs:263-300 | both acknowledgements are queued whatever becomes of them; an unreadable payload is an error, a user message sets the worker running |
| BridgeTransport.CcrV2TransportHandle.Heartbeat | kiana-bridge/src/transport.rs:317-327 | old stream events first; if they got through, the delivery updates, and then the heartbeat decides the result |
| BridgeTransport.CcrV2TransportHandle.Maintenance | kiana-bridge/src/transport.rs:333-342 | old stream events first; if they got through, the delivery updates, whose failure is not reported |
| BridgeTransport.CcrV2TransportHandle.FlushPending | kiana-bridge/src/transport.rs:344-354 | buffer, event queue and delivery updates are flushed in that order, up to the first reported failure |
| BridgeRuns.RunKeepsOrder | kiana-bridge/src/transport.rs:238-384 | over every run with any failures, what was released is what was sent, thinned, and what was handed over or waits is released events in order, none twice, with the queue limit kept and no leaked state |
| BridgeRuns.AtMostOnceInOrder | kiana-bridge/src/transport.rs:238-384 | under any failures each event handed over or waiting comes from a sent payload of its own, in the order of sending; the text of a delta is what the tables held for its block after a delta absorbed into it |
| BridgeRuns.StepAgrees | kiana-bridge/src/transport.rs:238-384 | one call keeps the tables to what a reader of the raw payloads knows, and keeps the two readers in agreement if and only if it releases no rewritten restart |
| BridgeRuns.MergingPreservesMeaningExactly | kiana-bridge/src/transport.rs:238-384 | with working calls the reader of the handed events agrees with the reader of the raw payloads after every call, if and only if no call releases such a restart |
| BridgeRuns.CoalescingPreservesMeaning | kiana-bridge/src/transport.rs:780-859 | they always agree when no message id is started twice, wherever the flushes fall |
| BridgeRuns.RunSettles | kiana-bridge/src/transport.rs:499-543 | with working calls nothing waits in the queue between calls, and the tables hold what a reader of the raw payloads knows |
| BridgeRuns.FinalFlushDeliversAll | kiana-bridge/src/transport.rs:344-359 | after a final flush nothing is left, and the client was handed all sent payloads in order, but for deltas absorbed into an earlier one of the same message block, each kept delta with exactly the text appended up to the last delta it absorbed |
| BridgeRuns.AcknowledgedInOrder | kiana-bridge/src/transport.rs:263-300 | over every sequence of received events and flushes with any failures, what was handed over or waits are pairs of received and processed for received events, none twice, in the order of receipt; without failures all of them |
| BridgeRuns.RunKeepsBooks | kiana-bridge/src/transport.rs:302-315 | in every run the known worker status is that of the last report that got through, and no plain report repeats it |
| BridgeText.AbsorbedWithinStream | kiana-bridge/src/transport.rs:827-852 | in every run, whatever fails, a delta is only absorbed into an earlier one of the same index, session and parent |
| BridgeText.TablesAreExact | kiana-bridge/src/transport.rs:238-384 | with working calls and no id started twice the tables hold, after every run, the open messages with the texts of their deltas in order |
| BridgeText.ClientReadsCollected | kiana-bridge/src/transport.rs:238-384 | after every call a client that overwrites each block with what it was handed has exactly the texts of the deltas of that block that have left the buffer |
| BridgeText.FinalTexts | kiana-bridge/src/transport.rs:344-384 | after a final flush the client was handed every sent payload unchanged and in order, but for deltas absorbed into an earlier one of their block with only stream events between; each kept delta carries the texts of its block up to the last delta it stands for |
| BridgeOutcomes.SendFailsExactly | kiana-bridge/src/transport.rs:238-261 | a send reports a failed upload if and only if a call to the client made by it failed |
| BridgeOutcomes.ExpiryFailsExactly | kiana-bridge/src/transport.rs:361-366 | so does a tick |
| BridgeOutcomes.FlushPendingFailsExactly | kiana-bridge/src/transport.rs:344-354 | so does the final flush, and if it ends well nothing waits |
| BridgeOutcomes.CompletionNeedsUpload | kiana-bridge/src/transport.rs:252-258 | a completed message is forgotten if its own upload got through, and kept otherwise |
| BridgeOutcomes.SendReports | kiana-bridge/src/transport.rs:648-668 | which status each kind of message reports, that a plain repetition is not sent, and that the send fails with the report if and only if the report was made and failed |
| BridgeOutcomes.ReceiveReports | kiana-bridge/src/transport.rs:289-300 | an unreadable message is an error; a user message reports a running worker unless it runs already |
| BridgeOutcomes.StatusFollowsMessages | kiana-bridge/src/transport.rs:238-315 | with working calls the status after every run is the one called for by the last message that calls for one |
| BridgeOutcomes.ClockIsOldest | kiana-bridge/src/transport.rs:781-786 | in every run the clock of a waiting buffer is the time at which its oldest event was pushed |
| BridgeOutcomes.TickReleasesExactly | kiana-bridge/src/transport.rs:361-366 | a tick empties the buffer once the oldest event has waited 100 milliseconds, and changes nothing before |
| BridgeOutcomes.YoungEventsWait | kiana-bridge/src/transport.rs:246-250 | sending a stream event before that releases nothing |
| UuidWindow.BoundedUuidSet.Add | kiana-bridge/src/transport.rs:748-760 | ring and set hold the same distinct uuids within capacity; a known uuid changes nothing |
| UuidWindow.BoundedUuidSet.Has | kiana-bridge/src/transport.rs:762-764 | the set answers for the ring |
| UuidWindow.WindowHoldsLastInsertions | kiana-bridge/src/transport.rs:748-760 | the window is the last `capacity` insertions, any `capacity` + 1 neighbouring insertions differ |
| UuidWindow.RepostingDoesNotRefresh | kiana-bridge/src/transport.rs:750-752 | a uuid used again still leaves with its first insertion |
| UuidWindow.TransportHandle.Send | kiana-bridge/src/transport.rs:188-195 | the uuid is remembered whether or not the write succeeds |
| UuidWindow.TransportHandle.Recv | kiana-bridge/src/transport.rs:197-220 | the loop consumes frames up to the first that decides, and remembers a delivered user message |
| UuidWindow.FirstFrameDecides | kiana-bridge/src/transport.rs:197-220 | only echoes, duplicates and noise are dropped; the first other frame determines the result and what remains |
| UuidWindow.NextIsDelivered | kiana-bridge/src/transport.rs:197-220 | in every session a receive goes exactly to the first frame that is neither noise, nor a message with one of the last `capacity` newly posted uuids, nor a user message with one of the last `capacity` delivered ones: a message in it is delivered, a close ends, anything else fails |
| UuidWindow.SendPosts | kiana-bridge/src/transport.rs:188-195 | every user and assistant message sent counts as posted, others do not |
| UuidWindow.DeliveredIsNew | kiana-bridge/src/transport.rs:202-212 | a delivered message is in neither window |
| UuidWindow.InboundWindowIsDelivered | kiana-bridge/src/transport.rs:206-211 | the inbound window is the window over the delivered user messages |
| UuidWindow.DeliveredUsersAreInsertions | kiana-bridge/src/transport.rs:206-211 | in every session each delivered user message was new to the window |
| UuidWindow.DuplicatesAreFarApart | kiana-bridge/src/transport.rs:206-211 | in every session two delivered user messages with one uuid have at least `capacity` other user uuids between them |
| UuidWindow.EchoesAreDropped | kiana-bridge/src/transport.rs:202-205 | in every session a message with one of the last `capacity` newly posted uuids is skipped and not delivered |
| Roadmap.Explore | scripts/roadmap-goal.py:58-75 | the explicit-stack walk ends, with a genuine closed path or with the start finished and the order still topological |
| Roadmap.DependencyOrder | scripts/roadmap-goal.py:53-75 | an order of all steps is produced if and only if the graph is acyclic, each dependency before its consumers; otherwise the reported list is a closed path |
| Roadmap.PathDescends | scripts/roadmap-goal.py:77-78 | along a path the place in the order goes down |
| Roadmap.OrderedIsAcyclic | scripts/roadmap-goal.py:51-75 | a complete dependency order excludes every cycle, self-loops included |
| Roadmap.GatheredIsClosure | scripts/roadmap-goal.py:81-85 | the direct dependencies with their closures are what is reachable by a nonempty path |
| Roadmap.Closures | scripts/roadmap-goal.py:79-85 | one pass over the order finds every closure it needs and gives each step exactly what it reaches |
| Roadmap.SelectKeepsOrder | scripts/roadmap-goal.py:92 | the sorted closure is in roadmap order |
| Roadmap.SelectCounts | scripts/roadmap-goal.py:91 | what is selected is neither dropped nor copied |
| Roadmap.BuildRow | scripts/roadmap-goal.py:87-98 | the fields of a row are the unfinished dependencies, the closure in order, its unfinished part, and the two readiness flags |
| Roadmap.RowMembers | scripts/roadmap-goal.py:88-95 | the lists of a row hold exactly the open direct dependencies, everything reachable, and the open part of it |
| Roadmap.TakeSnapshot | scripts/roadmap-goal.py:41-98 | a roadmap is accepted if and only if it has steps, distinct ids, registered dependencies and no cycle; a rejection names the first step with unregistered dependencies and all of those, or a closed path |
| Roadmap.ExecutionReadyIsReady | scripts/roadmap-goal.py:91-98 | ready for execution implies ready |
| Roadmap.ReadyExactly | scripts/roadmap-goal.py:87-90 | ready if and only if pending, in progress or at risk with all direct dependencies finished |
| Roadmap.ExecutionReadyExactly | scripts/roadmap-goal.py:93-98 | ready for execution if and only if pending, in progress or at risk with everything reachable finished |
| Roadmap.FirstOpenIsFree | scripts/roadmap-goal.py:77-98 | the first unfinished step of the order is blocked by nothing |
| Roadmap.SomeStepCanRun | scripts/roadmap-goal.py:77-98 | while something is unfinished and no step is unclear or barred, some unfinished step is ready for execution |
| Ancestry.HistoryChecksMean | scripts/capability_governance.py:915-933 | the four history checks pass if and only if the old records are a proper front part of the new |
| Ancestry.HistoryErrorsSay | scripts/capability_governance.py:915-933 | which history error is reported: no lists; an old id gone, or nothing added; old ids not first; an old record changed |
| Ancestry.SafePathExactly | scripts/capability_governance.py:417-429 | a path is safe if and only if its part before the first `#` is not empty, not absolute, without drive letter and backslash, none of its parts is `..`, and there is no NUL |
| Ancestry.PartsJoin | scripts/capability_governance.py:428 | the parts are what the slashes separate |
| Ancestry.HasWordsExactly | scripts/capability_governance.py:902 | a genesis reason counts if and only if something is left of it without the white space at its ends |
| Ancestry.UniqueIndex | scripts/capability_governance.py:701-724 | the index holds the first revision of each id, missing and repeated ids are reported exactly, and nothing is reported if and only if ids are stable and distinct |
| Ancestry.RevisionErrorsMean | scripts/capability_governance.py:897-938 | nothing is reported about a revision if and only if it is well formed and names an indexed one with the right hash and a front part of its records |
| Ancestry.RevisionErrorsSay | scripts/capability_governance.py:898-938 | and which errors are reported about it, exactly |
| Ancestry.WalkBack | scripts/capability_governance.py:940-952 | the walk from the head ends, reports a cycle exactly when it returns to a visited id, and visits a linked trail |
| Ancestry.ValidateRevisionAncestry | scripts/capability_governance.py:882-956 | no error is reported if and only if the well-formed revisions form one chain from the only genesis to the last of the list, each once, linked by id and hash; which errors are reported about ids, single revisions and the walk from the last one is exact as well |
| Ancestry.HeadDeterminesChain | scripts/capability_governance.py:913-914 | with an injective hash the head determines the whole chain |
| Ancestry.SameHeadSameHistory | scripts/capability_governance.py:882-956 | two accepted lists with equal head hashes hold the same revisions in the same predecessor order |
| Ancestry.HistoryIsAppendOnly | scripts/capability_governance.py:915-933 | the records of any ancestor are a proper front part of those of any descendant |
| Ancestry.SuccessorIsAccepted | scripts/freeze-capability-governance.py:596-617 | a built successor is accepted under a new id and a safe path if and only if, for evidence, it adds records |
| Ancestry.LoadChain | scripts/capability_governance.py:1509-1535 | the loop ends on every store and computes the load the lemmas are about |
| Ancestry.PredecessorExactly | scripts/capability_governance.py:474-477 | a path leads to a revision if and only if its file part is safe and the store has an object under the whole path |
| Ancestry.TrailIsTaken | scripts/capability_governance.py:1515-1534 | a trail of predecessor paths without a repeated id decides the load: loaded as it is if it ends, failed if it breaks off |
| Ancestry.LoadFailsExactly | scripts/capability_governance.py:1509-1532 | loading fails if and only if the head is no object or a trail from it breaks off at a path that must be followed and leads to no object |
| Ancestry.LoadedIsFollowed | scripts/capability_governance.py:1515-1535 | what is loaded follows predecessor paths from the head, repeats no id but at its front, and otherwise goes as far as there is anything to follow |
| Ancestry.AcceptedLoadReachesGenesis | scripts/capability_governance.py:1548-1564 | an accepted load leads from the head to a genesis without meeting an id twice, so loops and dead ends are rejected |
| Ancestry.LoadedOrderExactly | scripts/capability_governance.py:1527-1535 | the loaded order is the linked order if and only if every predecessor path leads to the named predecessor |
| Ancestry.PathOrderCanDiffer | scripts/capability_governance.py:1527-1535 | a store from which the loader returns an accepted list in another order than it is linked |
| Ancestry.ValidateHistoryFile | scripts/capability_governance.py:1548-1564 | no error is reported if and only if the paths from the head run through an accepted list, and it raises if and only if loading fails |
| EvidenceChain.ValidateRecordChain | scripts/capability_governance.py:1084-1097 | exactly the sequence, link and seal errors are reported, and none if and only if the records are numbered from one, linked and sealed |
| EvidenceChain.EvidenceLog.Append | scripts/freeze-capability-governance.py:661-667 | a record is numbered, linked and sealed, and the list stays a valid chain |
| EvidenceChain.AppendKeepsChain | scripts/freeze-capability-governance.py:661-667 | one appended record keeps the chain valid |
| EvidenceChain.AppendedChainsPass | scripts/freeze-capability-governance.py:661-667 | every list grown from a valid chain passes the checks and properly extends it, with the appended records as they were given |
| EvidenceChain.LastSealDeterminesRecords | scripts/capability_governance.py:1084-1097 | with an injective hash two passing lists with the same last seal are identical |
| EvidenceChain.TamperingShows | scripts/capability_governance.py:1093-1096 | any change before the last record fails the checks |
| EvidenceChain.RefreshIsAccepted | scripts/freeze-capability-governance.py:1017-1142 | a refreshed evidence head passes the record checks, and is accepted if and only if a record was added |
| BoundedCapture.ReadBoundedUntilStopped | kiana-capability-governance-supervisor/src/lib.rs:1114-1191 | the loop computes the capture the lemmas are about; the alarm is raised exactly for an exceeded limit or a failed read |
| BoundedCapture.ReadReceiptBounded | kiana-capability-governance-supervisor/src/lib.rs:1204-1272 | the same for the receipt reader |
| BoundedCapture.CaptureIsFaithful | kiana-capability-governance-supervisor/src/lib.rs:1114-1272 | for every schedule the capture is a front part of the stream within the limit, complete only if it is all of it, over the limit only if the stream is |
| BoundedCapture.CaptureByPosition | kiana-capability-governance-supervisor/src/lib.rs:1114-1272 | for both readers the first event that is final at its position ends the capture with everything delivered before it, and decides the verdict; without one the reader reads on |
| BoundedCapture.StopOrBreakEnds | kiana-capability-governance-supervisor/src/lib.rs:1172-1188 | a stop or a break before everything permitted was delivered ends either capture with what was delivered, truncated or failed |
| BoundedCapture.StopAtLimitEnds | kiana-capability-governance-supervisor/src/lib.rs:1142-1158 | so it does for the patient reader at the limit |
| BoundedCapture.PatientCaptureDecides | kiana-capability-governance-supervisor/src/lib.rs:1124-1190 | on a calm pipe the verdict says whether the stream is within the limit, however it is delivered |
| BoundedCapture.PatientFailureHasCause | kiana-capability-governance-supervisor/src/lib.rs:1142-1158 | a failed or truncated capture has a broken pipe or a stop as its cause |
| BoundedCapture.ReceiptFailsExactly | kiana-capability-governance-supervisor/src/lib.rs:1216-1232 | on a calm pipe the receipt reader fails if and only if some event that is not ready comes when the ready events before it deliver the limit and none of them looked behind it |
| BoundedCapture.ReceiptReaderIsStricter | kiana-capability-governance-supervisor/src/lib.rs:1216-1232 | one interruption separates the two readers |
| Descriptors.WalkClosesGap | kiana-capability-governance-supervisor/src/lib.rs:1283-1295 | the walk closes nothing that is not meant, and with the final range all that is |
| Descriptors.RangesCloseExactly | kiana-capability-governance-supervisor/src/lib.rs:1283-1295 | if all range calls succeed, exactly the unkept descriptors from 3 up are closed; the exact set for kept descriptors below 3 as well |
| Descriptors.ClosedExactly | kiana-capability-governance-supervisor/src/lib.rs:1602-1628 | whatever range calls fail, the exact set closed, and success if and only if all ranges succeeded or the soft limit can be read |
| Descriptors.KeptStayOpen | kiana-capability-governance-supervisor/src/lib.rs:1283-1312 | on every path no kept descriptor is closed, and success closes the unkept ones up to the limit |
| Descriptors.KeptClosedExactly | kiana-capability-governance-supervisor/src/lib.rs:1594-1614 | a kept descriptor from 3 up is closed if and only if a negative one is given and the first range call succeeds |
| Descriptors.NegativeClosesKept | kiana-capability-governance-supervisor/src/lib.rs:1602-1614 | descriptors -1, 5, 6, 7: the last three are closed |
| Descriptors.LowKeptClosesStandard | kiana-capability-governance-supervisor/src/lib.rs:1602-1614 | descriptors 0, 5, 6, 7: 1 and 2 are closed |
| Descriptors.CloseAround | kiana-capability-governance-supervisor/src/lib.rs:1602-1628 | the loop, the final range and the fallback close what the lemmas are about |
| Descriptors.CloseUnexpectedFds | kiana-capability-governance-supervisor/src/lib.rs:1274-1313 | for any list nothing kept and nothing below 3 is closed, everything else is if ranges work, and success means exactly that ranges worked or the limit could be read |
| Descriptors.SortInPlace | kiana-capability-governance-supervisor/src/lib.rs:1595-1601 | the in-place insertion sort sorts and permutes, duplicates included |
| Descriptors.CloseUnexpectedFdsAfterFork | kiana-capability-governance-supervisor/src/lib.rs:1594-1629 | the unfiltered closer: the same promises for descriptors from 3 up, exactly when they fail, and success exactly as above |
| Discovery.AdmittedExactly | kiana-capability-broker/src/discovery.rs:1088-1185 | a candidate is admitted if and only if it violates nothing, and a denial is a real violation |
| Discovery.CatalogAskedFirst | kiana-capability-broker/src/discovery.rs:1104-1111 | an unregistered operation in a forbidden namespace, reported as the less serious of the two |
| Discovery.EscalationReportedExactly | kiana-capability-broker/src/discovery.rs:1136-1184 | an escalated effect is reported if and only if nothing else is violated, so never with a missing capability |
| Discovery.EscalationReportedAsMissingCapability | kiana-capability-broker/src/discovery.rs:1136-1184 | a candidate with both faults, reported as a missing capability |
| Discovery.MostSeriousExactly | kiana-capability-broker/src/discovery.rs:1084-1114 | the reported denial has minimal precedence if and only if it is not an unregistered operation in a forbidden namespace |
| Discovery.RequestMostSeriousExactly | kiana-capability-broker/src/discovery.rs:955-988 | a request is answered if and only if no whole-request check fails; the report is the most serious failure except for too many candidates with a faulty, stale, revoked or expired surface |
| Discovery.TooManyNoticedLast | kiana-capability-broker/src/discovery.rs:955-988 | 129 candidates under a revoked surface, reported as the less serious revocation |
| Discovery.AdmitCandidate | kiana-capability-broker/src/discovery.rs:1088-1185 | one candidate against the surface, claiming its pair before anything else is checked |
| Discovery.AdmitAll | kiana-capability-broker/src/discovery.rs:990-1000 | the loop with its threaded set of claimed pairs |
| Discovery.ReportIsExact | kiana-capability-broker/src/discovery.rs:990-1000 | the entries are, in order, those of exactly the candidates that fail no check over the whole list; every other candidate has one record, in order, that names it and the most serious check it fails, but for an operation outside the catalog |
| Discovery.Evaluate | kiana-capability-broker/src/discovery.rs:937-1008 | staleness, revocation, expiry and a failed search stop before any candidate; a failed search alone is unknown and to be retried |
| Discovery.NarrowingOnlyRemoves | kiana-capability-broker/src/discovery.rs:990-1000 | narrowing the surface yields a subsequence of the entries |
| Discovery.EntriesAreGranted | kiana-capability-broker/src/discovery.rs:1136-1184 | every entry is within the grant, the namespaces, the operations and the effect ceiling |
| Discovery.NoOperationTwice | kiana-capability-broker/src/discovery.rs:1098-1111 | no operation is admitted twice |
| Discovery.NothingDropped | kiana-capability-broker/src/discovery.rs:993-1000 | every candidate ends as an entry or as a denial |

## Left out

- Push: the buffer is a value of its own; payloads are not mutated while others hold them, as ownership in the original guarantees.
- TakeBatch: byte sums are unbounded, so the saturating addition and a serialization error of an event are not modelled.
- Send: JSON normalization and uuid generation are part of the payload given; the internal transcript written after an upload is not modelled.
- Maintenance: the flush of internal transcript events, whose failure is only logged, is not modelled; nor is it in Heartbeat and FlushPending.
- Recv: the frames of the session-ingress handle are a finite sequence fixed in advance, read by as many calls as one likes; the end of the worker's event stream and its transcript are not modelled.
- TakeSnapshot: parsing the Markdown rows, the counts, the list of finished steps with open dependencies and the checklist export are not modelled; a row's closure is sorted by selecting from the roadmap order.
- ValidateRevisionAncestry: diagnostics are not sorted, deduplicated or given paths, and an id that is a JSON array or object, a TypeError in the original, counts as unknown.
- HistoryChecksMean: members are compared for identity, while Python's `==` also takes 1, 1.0 and true for equal, so the original accepts an old record that was rewritten in that way only.
- ValidateRecordChain: a sequence given as 1.0 or true, which Python takes for 1, is a sequence error here; the supersession and proof-regression checks in the same loop, and the reference checks after it, are not modelled.
- Append: the caller's record object is a value here, so later changes through an alias of it are not modelled.
- LoadChain: files are a table from paths to documents; a path that cannot be read or leaves the repository is absent from it.
- ValidateHistoryFile: schema validation of each revision is not part of this model.
- ReadBoundedUntilStopped: threads, joins and sleeping between retries are not modelled.
- CloseUnexpectedFds: closing one descriptor is taken to succeed; descriptors above the soft limit stay open on the fallback path, as in the original.
- Evaluate: checks of text, digests and sizes are one flag per value, and the report's own digest is not modelled.
- Completion of capabilities and journeys, drift fingerprints, rendering and publishing in the governance scripts: plumbing around the chain logic.
- Sandbox launching, process groups and trust checks of the supervisor: operating-system state.
