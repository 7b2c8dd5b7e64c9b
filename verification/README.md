# Codex Managed Channel: a verified model

Codex Managed Channel sits between an SSH client and an app-server. It forwards
the client's bytes unchanged, reads along, and decides from what it has read when
a runtime may be unloaded, replaced or killed. This project models the deciding
logic in Dafny and proves what that logic guarantees over every input, every
chunking, every interleaving and every run.

`dafny verify dfyconfig.toml` checks the whole project.

## How the model is laid out

| file | models |
|---|---|
| `Common`, `Picks` | what the other modules share: lists, levels, and the places where something holds |
| `Bytes`, `Frames`, `Wire` | the observer's byte-stream decoder as functions on values |
| `FrameLayout`, `Fragments`, `WireReading` | what that decoder does, said from the bytes and frames alone |
| `Limits` | which streams the decoder reads without throwing bytes away, and independence from chunking |
| `WireBuffer` | the object that decodes in place |
| `Encoders` | the two frame encoders and the round trips over whole streams |
| `ControlReader`, `ControlReading` | the control client's frame reader, its agreement with the observer's decoder, and its pongs |
| `Protocol`, `History`, `Responses`, `IdleTruth` | the observer's state machine, and what its state says about the message history |
| `Reliability`, `Snapshots` | when a snapshot is reliable, and every number in it, from the events alone |
| `Observer` | the observer object that updates its maps, sets and counters |
| `Forwarding` | the client's forwarding loop: observe, prepare, write |
| `Ordering`, `Injection` | unsubscribe requests injected into the client's stream |
| `Reclaim`, `DrainGuarantee` | the drain controller, alone and composed with the observer |
| `OwnerLease` | the owner loop's lease, detach budget, age and single attachment |
| `Runs`, `SessionFence`, `WindDown` | attach, owner, guardian, worker and stop around the two file locks, with crashes, and how every session can end |
| `ProcessTree`, `Tracking` | descendant closures over process tables, the process registry, and whom it follows |
| `Takeover`, `IdleInventory` | moving a thread between two servers, and the paginated idle check |
| `NonceScan`, `Bootstrap` | the octal nonce scanner and the bootstrap command parser |

The code's mutable objects are classes whose methods are proved against functions
on values; the theorems are about those functions. The observer carries its message
history as a ghost field, and its visible state is at all times the one that
history determines. What such a function gives is then declared once more, from the
bytes, frames, events, tables or ticks alone, in predicates that use none of the
model's own constants and helpers: a frame by the layout of RFC 6455, a mode by the
bytes of "GET ", a fault by the message that is one, a followed process by the rows
that lead to it. The lemmas between the two are equivalences.

## Where the code does not keep what one would expect

Each of these is a lemma with a concrete witness or an exact condition.

- A chunk boundary can be noticed. It is invisible to every continuation exactly when the
  bytes up to it are not of the kind that is thrown away (`Limits.BoundaryInvisible`), and the
  streams that can be cut anywhere are exactly those within the limits
  (`Limits.BoundariesInvisibleIff`).
- A frame near the size limit survives every chunking exactly when it is at most one byte
  longer than the buffer (`Encoders.FrameSurvivesIff`).
- The control client's reader loses exactly the messages that begin with an empty fragment
  (`ControlReader.CompareDecoders`, `ControlReader.DecodersAgree`).
- Any server message with the id of an open request is taken for its reply, a request of the
  server's own included. What is taken for replies are the responses exactly as long as that
  never happens (`Responses.RepliesAreResponses`).
- So a reliable count of zero can overlook work and turns. A response belongs to one earlier
  request under its id, and where ids are used twice it may belong to any of them; the results
  hold however it belongs. At a count of zero all is truly idle exactly when no request for
  work without a response had its id carried again, and no response behind such a message
  started a turn or made a thread busy to this day (`IdleTruth.IdleIsTrue`). It fails when the
  client uses an id again (`IdleTruth.ReusedIdHidesWork`), when one response comes for two
  requests (`IdleTruth.OneResponseForTwo`), and when a request of the server carries the id of
  a command or of a resumed thread (`IdleTruth.ServerRequestHidesWork`,
  `IdleTruth.ServerRequestHidesTurn`). Where no message carries the id of a request that still
  waits for its response, the count is exact (`IdleTruth.DistinctIdsHideNothing`).
- A reply is handled under two locks, one after the other. A count taken between the two
  is zero exactly if the turn about to start is all there is (`IdleTruth.TornReplyHidesTurn`).
- The owner does not look where the client's stream stands before it injects a request.
  Every payload is read as itself exactly at a frame boundary
  (`Injection.InjectionNeedsBoundary`). Inside a client frame a request is swallowed, whatever
  its text, exactly when it fits into what is still to come of that frame
  (`Injection.FrameInFlightSwallows`). At a boundary the server may read it exactly when no
  fragmented message is open (`Injection.InjectionIsLegalIff`).
- The snapshot taken behind the gate is not compared with the generation the drain
  started from. No activity fell between the start of the drain and the authorised action
  exactly when that comparison would have held (`DrainGuarantee.ActionIsQuietIff`); activity
  between the deciding sample and the gate can go unnoticed
  (`DrainGuarantee.ActivityBeforeTheGate`).
- A fresh controller on the same observer reclaims the connection once more for an archive
  epoch its predecessor had used (`DrainGuarantee.ReplacementForgetsEpochs`).
- An absence that begins and ends inside one loop iteration is added to the total but
  never checked against the budget (`OwnerLease.UncheckedAbsence`). Every absence is checked
  exactly when no iteration sees one client leave and another one attach
  (`OwnerLease.AbsencesCheckedIff`), and then the budget bounds the whole run
  (`OwnerLease.BudgetBoundsTheRun`).
- The rollback of a takeover has the deadline of a connection made before the archive. After
  retries that ran into their own deadline it has no longer than passed between the two
  connections (`Takeover.RollbackWindow`).
- `stop` lets go of the owner lock before it returns. Until then no worker lives exactly
  when no owner was waiting to try the lock at the probe (`SessionFence.StopIsFinalIff`), and
  such an owner is left behind by a client that dies right behind its spawn
  (`SessionFence.LateOwnerIsReachable`).
- A worker is left without a fence when its guardian is killed before the readiness line,
  when the guardian fails in its wait for the worker's socket and leaves without cleaning up,
  or when guardian and owner are both killed (`SessionFence.OrphansAreReachable`); then, and
  only then, a second worker can live beside it (`SessionFence.OrphanAdmitsSecond`,
  `SessionFence.AtMostOneWorker`).
- A takeover ends where its outcome says exactly when no archive or unarchive whose reply
  was lost took effect (`Takeover.OwnershipIffNothingSilent`,
  `Takeover.LostUnarchiveDoublesOwner`).

## Assumptions

- JSON text is read and printed by functions that are parameters: `Observer.Parser` for
  reading, `Injection.Control` for the one request that is printed. Printing a request and
  reading it back is assumed to give that request.
- Clocks are inputs. Where a result needs time to be nondecreasing it says so.
- Counters and lengths are natural numbers. The code's saturating additions on 64-bit
  counters, and its branches for lengths that do not fit a machine word, are
  not reached by anything smaller than 2^64 and are not modelled; an announced
  length that does not fit is one that exceeds the 64 MiB limit, with the same effect.
- In one process table every pid appears once; where a result needs this, it is a
  precondition. A pid is never reused with the same start stamp.
- Locks, gates and shared maps are taken and released in atomic steps. One message is
  handled in one step: a snapshot never falls inside. `IdleTruth.TornReply` says what one
  would show that does.

## Model

| member | source | states |
|---|---|---|
| Bytes.BigEndianRoundTrip | src/session.rs:50-52 | big-endian length bytes read back as the length they were written for, at any width it fits |
| Bytes.MaskInvolution | src/protocol.rs:544-548 | unmasking a masked payload with the same key restores it (section 5.3 of RFC 6455) |
| Bytes.Unmask | src/takeover.rs:364-368 | the in-place unmasking loop yields the masked-with-key payload |
| Frames.ParseStable | src/protocol.rs:484-542 | a verdict on the front of the buffer, frame or violation, is never changed by bytes that arrive later |
| Frames.DrainSplit | src/protocol.rs:482-570 | draining a prefix and later the rest equals draining everything at once, as long as nothing was discarded |
| Frames.DrainCleared | src/protocol.rs:490-492 | once a violation is met, everything buffered behind it is thrown away and nothing else changes |
| Frames.DrainRest | src/protocol.rs:485-541 | what stays buffered is a suffix of the input: nothing after a violation, otherwise one incomplete frame |
| Wire.DetectGrows | src/protocol.rs:436-451 | a detected mode stays the same however many bytes follow |
| Wire.TerminatorGrows | src/protocol.rs:455-460 | the end of the handshake is where it first appeared, however many bytes follow |
| Wire.LinesSplit | src/protocol.rs:463-467 | splitting lines off a prefix and then off its rest plus the new bytes gives the lines of the whole |
| Wire.UnclearedIsInvisible | src/protocol.rs:434-480 | if a call discards nothing, feeding its bytes and later ones separately equals feeding them at once |
| Wire.ClearedIsVisible | src/protocol.rs:474-478 | if a call discards buffered bytes, one more zero byte tells the two ways of feeding apart |
| Limits.DiscardsIff | src/protocol.rs:474-542 | a call throws buffered bytes away if and only if the bytes buffered and new hold a violation, or too long a line, handshake or part of a frame |
| Limits.BoundaryInvisible | src/protocol.rs:434-480 | a chunk boundary leaves no trace for any continuation if and only if the bytes up to it are not of that kind |
| Limits.CalmIff | src/protocol.rs:434-570 | no prefix of a stream is thrown away if and only if undetected bytes, lines, the handshake and every frame stay within the buffer and no frame is a violation |
| Limits.BoundariesInvisibleIff | src/protocol.rs:434-570 | the streams that can be cut anywhere, whatever follows the cut, are exactly those within these limits |
| Limits.ChunkIndependence | src/protocol.rs:434-570 | on a stream within the limits every partition gives the same messages, failures and final mode, buffer and fragment |
| FrameLayout.FrameIff | src/protocol.rs:484-548 | a frame is taken if and only if it is complete by its length bits and bytes, with final bit, opcode, size and every payload byte, key taken off, as section 5.2 of RFC 6455 lays them out; it is refused if and only if a reserved bit is set or it announces more than 67108864 bytes |
| Fragments.MessagesAreDeclared | src/protocol.rs:549-567 | over any frames the messages are, in order, the final text frames and the completed collections of an opened one, and the failures are exactly the reserved opcodes, the continuations of nothing and the collections that grow beyond 67108864 bytes |
| Fragments.DrainIsDeclared | src/protocol.rs:482-570 | a drained buffer gives the declared messages and failures of its complete frames, one failure more if the rest is refused, and holds what the open message has collected |
| WireReading.DetectIff | src/protocol.rs:436-451 | behind white space the bytes 71 69 84 32 or 72 84 84 80 47 choose the handshake, 123 or 91 or any five other bytes JSON lines, and fewer choose nothing |
| WireReading.TerminatorIff | src/protocol.rs:455-456 | the handshake ends at the first 13 10 13 10 |
| WireReading.LinesIff | src/protocol.rs:463-467 | the lines and the unfinished one are those that joined with bytes 10 give the buffer and hold no such byte |
| WireReading.UnknownFed | src/protocol.rs:436-451 | a call whose bytes choose a mode does what one in that mode does; bytes that choose none wait, or are thrown away and counted above 67108864 |
| WireReading.HandshakeFed | src/protocol.rs:455-460 | up to the first blank line bytes wait; from there on they are frames |
| WireReading.LinesFed | src/protocol.rs:462-478 | complete lines come out, the unfinished one is kept, or thrown away and counted above 67108864 bytes |
| WireReading.FramesFed | src/protocol.rs:469-478 | frames give their declared messages and failures; a refused frame or more than 67108864 bytes of one are thrown away and counted once |
| WireBuffers.WireBuffer.Feed | src/protocol.rs:434-480 | feeding in place does exactly what the decoder function says, and the buffer never exceeds 64 MiB |
| WireBuffers.WireBuffer.SettleMode | src/protocol.rs:436-460 | mode detection and the step over a complete handshake leave mode and buffer as the function says |
| WireBuffers.WireBuffer.TakeLines | src/protocol.rs:462-468 | the draining loop takes exactly the complete lines and leaves the rest |
| WireBuffers.WireBuffer.DrainWebsocketFrames | src/protocol.rs:482-570 | the frame loop leaves the buffer, fragment, messages and failures that the drain function defines |
| WireBuffers.WireBuffer.TakeFrame | src/protocol.rs:485-548 | one frame is removed exactly when it is complete; a violation empties the buffer |
| WireBuffers.WireBuffer.AcceptFrame | src/protocol.rs:549-567 | fragmentation per section 5.4 of RFC 6455, with the size limit and the failure cases |
| Encoders.MaskedFrameParses | src/session.rs:44-69 | a frame built with any key parses back to its payload across all three length forms, whatever follows it |
| Encoders.MaskedWebsocketTextFrame | src/session.rs:44-69 | fails exactly above 65535 bytes; otherwise the frame has the shortest length form and the fixed key, and in front of any bytes parses to exactly the payload |
| Encoders.SendJson | src/takeover.rs:274-301 | fails exactly above 64 MiB; otherwise the frame has the shortest length form and the key given, and in front of any bytes parses to exactly the payload |
| Encoders.FramesRoundTrip | src/session.rs:44-69 | any payloads with any keys behind any handshake, "GET " or "HTTP/" behind white space up to the first 13 10 13 10, cut into any chunks, decode to exactly those payloads with nothing left |
| Encoders.FrameSurvivesIff | src/protocol.rs:474-478 | an encodable frame survives every chunking if and only if it is at most one byte longer than the buffer limit |
| Encoders.LinesRoundTrip | src/protocol.rs:462-468 | JSON lines within the limit come out once each, in order, however the stream is cut |
| ControlReader.RpcClient.ReadFrame | src/takeover.rs:328-370 | the reader that pulls bytes accepts exactly the frames the observer's decoder parses, with the same contents |
| ControlReader.RpcClient.ReadLength | src/takeover.rs:335-357 | head and length forms are read as the observer's decoder reads them, with the same limits |
| ControlReader.RpcClient.SendControlFrame | src/takeover.rs:372-388 | a pong is masked and sent unless its payload exceeds 125 bytes |
| ControlReader.RpcClient.ReadJson | src/takeover.rs:303-326 | the loop returns the first complete message, consumes exactly its frames and answers every ping before it |
| ControlReading.ReadIsDeclared | src/takeover.rs:303-326 | one message is read up to the first frame that completes or breaks it, with exactly that text, and each ping before it is answered, in order, by a final pong frame of its own payload |
| ControlReader.CompareDecoders | src/takeover.rs:307-325 | on legal frames the observing decoder extracts all messages, and the reader exactly those that do not begin with an empty fragment, in order |
| ControlReader.DecodersAgree | src/protocol.rs:549-567 | on every legal stream the two decoders extract the same messages if and only if no fragmented message opens with an empty frame |
| History.PendingIsDeclared | src/protocol.rs:149-193 | the pending table holds exactly the requests of the history not yet answered or overwritten |
| History.ReplyIsAnswer | src/protocol.rs:182-193 | a server message acts as a reply exactly when the history holds an open request with its id |
| Responses.RepliesAreResponses | src/protocol.rs:182-193 | what acts as a reply is the response to its request, throughout a history, if and only if no request of the server carries the id of an open one |
| History.ActiveIsDeclared | src/protocol.rs:181-325 | while reliable, the active set is exactly the turns started, by notification or by what acts as a reply, after their thread last closed and never ended; tombstones are exactly the ended turns |
| History.TombstoneCap | src/protocol.rs:214-218 | a turn end met with 4096 tombstones makes the observer unreliable for good |
| History.HistoryGrows | src/protocol.rs:54-64 | failures, activity, epochs and unsubscribe counters never fall |
| IdleTruth.BusyIsDeclared | src/protocol.rs:227-250 | the busy set is exactly the threads reported active and not put to rest since |
| IdleTruth.LiveIsDeclared | src/protocol.rs:272-311 | the live set is exactly the threads opened by a reply and neither removed nor closed since |
| IdleTruth.CountIsDeclared | src/protocol.rs:331-344 | a reliable count is zero if and only if no declared turn runs, no declared thread is busy and no work is waited for; the anonymous counter is then 0 |
| Responses.ResponsesMatch | src/protocol.rs:182-193 | giving each response to the latest request under its id that waits is one way for responses to belong to requests: each to one earlier request, no two to one |
| Responses.EffectsBalance | src/protocol.rs:182-193 | for every such way and every effect of a reply, what the observer heeds and what it misses is together what the responses truly do and what it makes up |
| IdleTruth.WorkIsPending | src/protocol.rs:339-343 | without failures and however responses belong to requests, all work has had its response if and only if none is waited for and none without a response had its id carried again |
| IdleTruth.TurnsBalance | src/protocol.rs:253-325 | the turns counted and those missed are together the turns that truly run and those made up by a response taken for another one |
| IdleTruth.ThreadsBalance | src/protocol.rs:272-287 | the same for threads reported busy by a notification or by the response to their opening |
| IdleTruth.IdleIsTrue | src/protocol.rs:331-344 | in a reliable snapshot, however responses belong to requests, the count is zero with nothing overlooked if and only if all work has had its response, no turn runs and no thread is busy, with nothing made up; at a count of zero all is idle if and only if nothing is overlooked |
| IdleTruth.DistinctIdsHideNothing | src/protocol.rs:172-193 | when no other message carries the id of a request before its response, nothing is overlooked or made up, and the count is zero if and only if all is idle |
| IdleTruth.LatestMatchingMakesNothingUp | src/protocol.rs:182-193 | when responses belong to the latest request under their id and requests of the server carry no result, nothing is made up |
| IdleTruth.ReusedIdHidesWork | src/protocol.rs:172-178 | a witness: a reused in-flight id gives a reliable idle snapshot with a turn unanswered |
| IdleTruth.ServerRequestHidesWork | src/protocol.rs:182-193 | a witness: a request of the server under the id of a running command gives a reliable idle snapshot without its response |
| IdleTruth.OneResponseForTwo | src/protocol.rs:172-193 | a witness: two commands under one id and one response give a reliable idle snapshot, whichever of them it answers |
| IdleTruth.ServerRequestHidesTurn | src/protocol.rs:182-193 | a witness: a request of the server under the id of a resume gives a reliable idle snapshot although the response behind it lists a running turn |
| IdleTruth.TornReply | src/protocol.rs:183-192 | between the two locks of one reply the count misses exactly the request just taken off the table |
| IdleTruth.TornReplyHidesTurn | src/protocol.rs:183-192 | a turn about to start is counted before and after; in between the count is zero if and only if it is all there was |
| Reliability.ReliableIff | src/protocol.rs:373-378 | a snapshot is reliable if and only if no event before it was faulty: unreadable, work without an id, a turn without a thread, a notice without its ids or with an unknown status, a reply without its turn, or a turn end after 4096 others |
| Reliability.ReliableOnlyIfRead | src/protocol.rs:95-112 | after a call that met a decoder failure or a line neither blank nor readable no snapshot is ever reliable again |
| Snapshots.CountIsExact | src/protocol.rs:331-344 | a reliable count is the number of running turns, busy threads without one and requests for work without a reply, each once |
| Snapshots.LiveIsExact | src/protocol.rs:373-389 | the number of live threads is that of the threads declared live |
| Snapshots.IdleIsExact | src/protocol.rs:361-371 | when reliable, the threads that may be unsubscribed are the live ones neither busy nor running a turn, by the history |
| Snapshots.UnsubscribesAreExact | src/protocol.rs:312-322 | completed and failed unsubscribes are the numbers of replies that said so and that did not |
| Snapshots.EpochIsExact | src/protocol.rs:305-311 | the archive epoch is the number of successful archives of the only thread then live |
| Snapshots.AnonymousIsSurplus | src/protocol.rs:163-167 | the counter of turns without a thread is the largest surplus of such starts over failures and nameless ends in any stretch of the history up to now |
| IdleTruth.UnsubscribesConserved | src/protocol.rs:312-322 | completed, failed, outstanding and overwritten unsubscribes together are exactly those observed |
| IdleTruth.NothingOverwritten | src/protocol.rs:172-178 | none is overwritten if and only if no request registers under the id of an open unsubscribe |
| IdleTruth.EpochStep | src/protocol.rs:305-311 | the archive epoch rises exactly when a successful archive empties the live set |
| IdleTruth.EpochsNeedOpenings | src/protocol.rs:272-311 | the epoch never exceeds the number of openings that grew the live set |
| IdleTruth.GenerationCounts | src/protocol.rs:122-129 | the activity generation is the number of user-activity messages observed |
| IdleTruth.QuietBetween | src/protocol.rs:373-389 | two samples show one generation if and only if no user activity was observed between them |
| Observer.LinesAreEvents | src/protocol.rs:104-116 | the events of a call are, in order, the messages read in its lines that are not blank, and one doubt for each such line that cannot be read |
| Observer.ProtocolObserver.Observe | src/protocol.rs:84-102 | the bytes are returned unchanged; decoder and history advance by exactly what the bytes complete |
| Observer.ProtocolObserver.ObserveClientMessage | src/protocol.rs:118-179 | the object's state changes exactly as the client step defines |
| Observer.ProtocolObserver.ObserveServerMessage | src/protocol.rs:181-251 | reply first, then notification, exactly as the server step defines |
| Observer.ProtocolObserver.FinishRequest | src/protocol.rs:253-325 | the effect of one reply on live, active, busy, epoch and counters |
| Observer.ProtocolObserver.RecordTurns | src/protocol.rs:288-302 | the loop over a resumed thread's turns adds exactly those in progress and not ended |
| Observer.ProtocolObserver.TakeResumeAttempts | src/protocol.rs:345-350 | the queue is handed out whole, once, and is then empty |
| Observer.ProtocolObserver.TakeSnapshot | src/protocol.rs:373-389 | the snapshot is the one the message history determines |
| Observer.ProtocolObserver.IdleThreadSet | src/protocol.rs:361-371 | exactly the loaded threads neither busy nor running a turn |
| Forwarding.Channel.ForwardClientChunk | src/supervisor.rs:467-483 | a chunk is observed, the resumes it completes are prepared in order, and then it is written |
| Forwarding.Channel.CopyClientObserved | src/supervisor.rs:443-465 | the loop produces exactly the log of those effects for all chunks |
| Forwarding.LinesAreResumes | src/protocol.rs:141-148 | the attempts queued are, in order, the thread and parameters of every decoded thread/resume that names a thread, and nothing else |
| Forwarding.ForwardingIsTransparent | src/supervisor.rs:467-483 | over any chunks the bytes written are the bytes read |
| Forwarding.PreparedBeforeWritten | src/supervisor.rs:467-483 | on a stream within the decoder's limits, at every point of the log every resume complete in the written bytes is already prepared, and each is prepared once, in order, before the chunk with its last byte is written |
| Forwarding.ForwardLogIsStreamLog | src/protocol.rs:141-148 | on a stream no part of which the decoder throws away, what each chunk prepares is the difference between the resumes of the stream with and without it |
| Ordering.SortedUnique | src/protocol.rs:361-371 | the sorted listing of a set of thread ids is unique |
| Ordering.LessIff | src/protocol.rs:361-371 | one id comes before another if and only if it is its proper beginning or has the smaller character where they first differ |
| Ordering.Sort | src/protocol.rs:361-371 | the thread ids come out strictly ascending, each exactly once |
| Injection.ProxyInput.UnsubscribeIdleThreads | src/session.rs:21-42 | wherever the client's stream stands, exactly the idle threads are unsubscribed in sorted order, each frame observed before it is written; the first that cannot be encoded stops the loop and leaves only its number behind |
| Injection.EventAt | src/session.rs:26-38 | the i-th request unsubscribes the i-th thread under the i-th number from the given one, and the i-th frame carries its text |
| Injection.InjectedFrameFed | src/session.rs:37-38 | at a frame boundary an injected frame is decoded as exactly its payload and leaves the decoder as it was |
| Injection.InjectionNeedsBoundary | src/session.rs:37-38 | every payload that can be encoded is decoded as itself, the decoder left as it was, if and only if the client's stream stands between two frames |
| Injection.FrameInFlightSwallows | src/session.rs:37-38 | behind the head of an unfinished client frame an injected request, whatever its text, is buffered as part of it and nothing is recorded if and only if the frame stays unfinished and the buffer holds both |
| Injection.InjectedAtBoundary | src/session.rs:26-39 | there the observer records exactly the requests |
| Injection.InjectionIsLegalIff | src/session.rs:45-46 | to the server the frame is legal under section 5.4 of RFC 6455 if and only if no fragmented message is open |
| Injection.InjectionIsInvisible | src/session.rs:21-42 | a request leaves the active count as it was if and only if its id is not in use for pending work |
| Injection.InjectionKeepsState | src/session.rs:21-42 | however many are injected, only the pending table changes: generation, live, active and busy sets, failures and active count stay |
| Injection.IdleTargetsAllLive | src/protocol.rs:361-371 | when nothing is active the targets are all the live threads |
| Reclaim.ReclaimController.Step | src/reclaim.rs:50-85 | the object changes and answers exactly as the evaluation function says |
| Reclaim.ReclaimIffEarned | src/reclaim.rs:51-66 | reclaim is decided if and only if a drain for that reason started at least the drain time ago and every sample since was reliable, inactive and of one generation |
| Reclaim.CancelIffBroken | src/reclaim.rs:51-60 | a drain is cancelled if and only if it was held until this sample and this sample breaks it |
| Reclaim.ArchiveIffUnused | src/reclaim.rs:67-84 | an archive drain starts if and only if the sample is eligible and its epoch is above every epoch used so far: epochs are used once each, in rising order, and deferred rather than lost |
| Reclaim.DrainStartsIff | src/reclaim.rs:67-84 | a drain starts if and only if the sample is reliable and inactive and no drain has been held up to it: for an archive if its epoch is above every epoch used, otherwise for idleness if the client has been idle long enough |
| DrainGuarantee.ReclaimGuarantee | src/session.rs:573-590 | composed with the observer, reclaim implies no user activity between the drain's start and its decision, no event ever before that cast doubt, and at every sample between, however responses belong to requests, a truly idle history exactly when nothing is overlooked |
| DrainGuarantee.DrainStartsByHistory | src/session.rs:573-590 | composed with the observer, a drain starts if and only if no doubt was cast, nothing is counted and no drain is held: for an archive if more archives have emptied the live threads than at any earlier such start, otherwise for a client idle long enough |
| DrainGuarantee.AuthorisedGuarantee | src/session.rs:591-604 | the two snapshots around the idle check pass only if the inventory proves idle, no event cast doubt, no activity fell between them and the history was truly idle at each unless something is overlooked there; where the observer sees all, if and only if |
| DrainGuarantee.QuietSince | src/session.rs:591-602 | between any earlier position and the second of two positions of one generation there was no activity if and only if that generation is the earlier one's |
| DrainGuarantee.ActionIsQuietIff | src/session.rs:588-604 | for every authorised reclaim, no user activity fell between its drain's start and the action if and only if the first gated snapshot shows the generation the drain recorded |
| DrainGuarantee.ActivityBeforeTheGate | src/session.rs:588-604 | a witness: activity between the deciding sample and the first gated snapshot passes the test |
| DrainGuarantee.EpochReclaimsIff | src/reclaim.rs:51-84 | over a quiet run an archive reclaim comes if and only if the epoch is new to the controller and the drain time is over |
| DrainGuarantee.ReplacementForgetsEpochs | src/session.rs:617-621 | for an epoch already used, a replaced controller reclaims the connection over a quiet run where its predecessor never would |
| OwnerLease.Owner.Turn | src/session.rs:521-572 | one iteration of the loop changes the lease and ends exactly as the iteration function says |
| OwnerLease.EndsAsDeclared | src/session.rs:521-567 | an iteration ends the loop for the first that holds of stop, guardian exit, age, grace or budget, listener failure and unload, read off the attachment log and the tick |
| OwnerLease.LeaseIsTheLog | src/session.rs:513-567 | the birth never moves, the detached mark is set exactly while nobody is attached, and the total is the sum of the completed detached intervals |
| OwnerLease.OneAttachment | src/session.rs:549-552 | attachments and detachments alternate: nobody attaches while another client is attached |
| OwnerLease.TotalNeverFalls | src/session.rs:556-558 | no iteration, and so no reattachment, lowers the detached total |
| OwnerLease.SurvivedHeadsAreWithinBounds | src/session.rs:534-539 | at every head survived without a client the current absence is under the grace and all absences together under the budget |
| OwnerLease.BoundedLifetime | src/session.rs:530-533 | the loop survives at most max_age divided by 50 ms heads, rounded up |
| OwnerLease.UncheckedAbsence | src/session.rs:534-559 | a witness: an absence inside one iteration takes the total past the budget and the loop goes on |
| OwnerLease.BudgetBoundsCheckedAbsence | src/session.rs:534-558 | an absence seen at a head passes the budget by at most the time from that check to the attach |
| OwnerLease.AbsencesCheckedIff | src/session.rs:534-567 | every completed absence was going on at some loop head if and only if no iteration sees one client leave and another one attach |
| OwnerLease.BudgetBoundsTheRun | src/session.rs:534-558 | over a whole run without such an iteration the total stays within the budget and the longest time from check to attach |
| SessionFence.RunKeeps | src/session.rs:148-192 | the invariant holds after every step of every interleaving of clients, owners, guardians, workers and crashes |
| SessionFence.LiveWorkerIsFenced | src/session.rs:459-502 | a live worker's owner or guardian holds the owner lock, unless the worker is an orphan |
| SessionFence.AtMostOneWorker | src/session.rs:117-133 | over every interleaving at most one worker lives, orphans apart |
| SessionFence.PastTheLockNoWorker | src/session.rs:158-160 | a new owner gets the lock, and attach or stop find it free, only when no worker lives, orphans apart |
| SessionFence.StopExcludesOwners | src/session.rs:220-235 | while stop holds the lock it found free no worker lives, no owner starts and no worker appears |
| SessionFence.StopIsFinalIff | src/session.rs:226-229 | from that moment until stop returns no worker lives, in any continuation, if and only if no owner was waiting to try the lock |
| SessionFence.LateOwnerIsReachable | src/session.rs:160-177 | such an owner can be there: its client was killed right behind the spawn |
| SessionFence.OrphansAreReachable | src/session.rs:479-484 | all kinds of orphan occur: guardian killed before its line, guardian gone from its wait for the socket without cleanup, and owner and guardian both killed |
| SessionFence.OrphanAdmitsSecond | src/session.rs:245-258 | beside an orphan, and only beside one, a second worker can be brought up |
| WindDown.EverySessionWindsDown | src/session.rs:220-259 | from every reachable state, crashes included, some steps without another crash lead to no client, no owner, no guardian, no live worker and a free lock |
| WindDown.ConnectedIsServed | src/session.rs:154-192 | a client gets through only to a running owner behind its readiness line and under the lock |
| WindDown.FullLives | src/session.rs:148-259 | a session is brought up and served, a second client refused or let through, stopped and reported; and an owner ends the worker of a guardian that was killed or failed |
| ProcessTree.LeastFixpoint | src/supervisor.rs:519-533 | a set closed under the table's children that holds only reachable pids is exactly the reachable ones |
| ProcessTree.OrderIsIrrelevant | src/supervisor.rs:520-533 | reachability depends on which rows a table has, not on their order |
| ProcessTree.ProcessTreeGroups | src/supervisor.rs:500-535 | the loop ends with the root's group and every group above 1 of exactly the processes reachable from the root |
| ProcessTree.ProcessRegistry.Refresh | src/supervisor.rs:546-601 | after a refresh the registry holds exactly the retained entries and the eligible closure of them and a stamp-matching root; without a table nothing changes |
| ProcessTree.ProcessRegistry.Signal | src/supervisor.rs:603-609 | exactly the groups of the refreshed registry are signalled, and none when no table could be read |
| ProcessTree.RefreshStaysGenuine | src/supervisor.rs:568-600 | one refresh keeps every entry a true descendant under its own pid and stamp, with a group above 1 |
| ProcessTree.RegistryIsGenuine | src/supervisor.rs:545-601 | over any sequence of tables every entry is the original root or a true descendant of it, never a reused pid, and has a group above 1 |
| ProcessTree.TrackingSurvivesReparenting | src/supervisor.rs:568-573 | an entry stays as it is if and only if the table still shows its pid with that group and stamp, whoever its parent is |
| Tracking.RootStampIsFirst | src/supervisor.rs:574-583 | over any run the root's stamp is the one of the first table that lists it, and there is none before |
| Tracking.RegistryFollows | src/supervisor.rs:545-601 | after each table of a run the entries are exactly those of the rows followed: still there from before, the root as first seen, or led to from these by rows with a group above 1 and a stamp |
| Tracking.GroupsAreFollowed | src/supervisor.rs:603-609 | the groups signalled are exactly those of the rows followed |
| Takeover.World.PrepareResume | src/takeover.rs:87-148 | the exchanges and the outcome form a transcript of the protocol: archived at most once and only what was proven free, rolled back if and only if archived and finally not unarchived, the rollback confirmed if and only if it succeeds before the deadline of the shared connection, and every refusal of code -32600 by an active writer within the timeout followed by another attempt |
| Takeover.World.RetryUnarchive | src/takeover.rs:131-140 | each retry follows, 50 ms later, a refusal by an active writer that came within the timeout of the archive, and there are only so many |
| Takeover.World.Request | src/takeover.rs:178-195 | a reply is read only before the deadline fixed when its connection was made; a request sent too late may still take effect |
| Takeover.RollbackWindow | src/takeover.rs:131-147 | after a last attempt cut off by its deadline a confirmed rollback took no longer than passed between the two connections; the retry loop's own deadline is reached only if no time passed before |
| Takeover.OwnershipIffNothingSilent | src/takeover.rs:87-148 | the thread ends with the owner its outcome names if and only if no change whose reply was lost took effect |
| Takeover.NeverTwoOwners | src/takeover.rs:124-147 | with no reply lost, a thread of the shared server ends isolated, shared or with neither, as the outcome says |
| Takeover.LostUnarchiveDoublesOwner | src/takeover.rs:131-147 | a witness: a lost unarchive that took effect leaves the thread with both servers after rollback |
| IdleInventory.RuntimeIsIdle | src/takeover.rs:19-52 | true if and only if cursors chain to null within 128 pages, all ids are distinct and at most 4096, every thread was read as idle and nothing failed or was malformed |
| NonceScan.CountSlashes | src/bootstrap.rs:118 | counts the maximal row of backslashes at an offset |
| NonceScan.OctalNonceCandidates | src/bootstrap.rs:113-138 | the index loop returns the octets of exactly the runs of eight, in order |
| NonceScan.OctalIff | src/bootstrap.rs:140-151 | an octet is read if and only if it stands there as that many backslashes and its three octal digits, and is below 256 |
| NonceScan.CandidatesAreTheMaximalRuns | src/bootstrap.rs:113-138 | the octets found are, in order, those of exactly the places where a run of eight octal escapes with equally many backslashes begins that nothing extends on either side |
| NonceScan.OneNonceIff | src/bootstrap.rs:66-69 | one nonce is found if and only if one such run begins anywhere, and it is that one |
| NonceScan.RenderedNonceIsFound | src/bootstrap.rs:140-151 | octets escaped at any quoting depth between texts without backslashes are found, alone, exactly when there are eight |
| Bootstrap.TerminalMarkerIsSole | src/bootstrap.rs:87-95 | a marker is terminal if and only if it occurs nowhere else, overlaps included, and only white space and quotes follow |
| Bootstrap.PathProbeIsSole | src/bootstrap.rs:97-111 | the path probe is recognised if and only if its marker occurs once, overlaps included, and is closed with or without the exit tail |
| Bootstrap.TerminalsExclude | src/bootstrap.rs:36-41 | no two of the path, version and proxy conditions hold together |
| Bootstrap.OneActionIff | src/bootstrap.rs:43-56 | a command names one action if and only if it has a terminal marker or the bootstrap marker, and not both |
| Bootstrap.AsksIff | src/bootstrap.rs:32-55 | each action is asked for if and only if its very text stands in the command: alone and followed by filler, for the path probe by "; exit 86" between filler as well, for the bootstrap anywhere |
| Bootstrap.CollectActions | src/bootstrap.rs:43-55 | the collected actions are exactly those asked for, one of them exactly when the command names one |
| Bootstrap.ParseOriginalCommand | src/bootstrap.rs:23-74 | accepted if and only if 1 to 65536 bytes long, free of NUL and line ends, printing a nonce, saying one action by its text and carrying one run of eight escapes, which are returned; each refusal names the first condition that fails |

## Left out

- Process spawning, sockets, file modes, environment parsing, logging and the parsing of `ps` and `lsof` output: they appear as events, steps or input tables.
- JSON parsing and printing: parameters, as stated under Assumptions.
- `src/managed_home.rs` and `src/marketplace.rs`: file linking and configuration rewriting through libraries, with no deep state.
- `src/fd_guard.rs` and the file-descriptor sampling in the owner loop: a few branches; its unload is one more use of the injection and the idle check modelled here.
- The legacy `run` loop in `src/supervisor.rs`: the owner loop with less structure.
- `wait_for_thread_unload` and the event log around an idle unload: waiting and reporting, no decision the lemmas depend on.
- Read and write errors while forwarding: a failed write ends the copy; the log then is a prefix, which `Forwarding.PreparedBeforeWritten` covers.
- The HTTP upgrade of the control client: its handshake is compared with constants only.
- The error text of a refused bootstrap command.
- IdleTruth.IdleIsTrue: a batch of JSON-RPC messages in one array is one message without method or id, as the code reads it; the requests and responses inside are not followed.
- OwnerLease.Owner.Turn: the decision to unload and the listener's failure are inputs of an iteration; `Reclaim`, `DrainGuarantee` and `Injection` model how the decision is made.
- SessionFence.RunKeeps: a sweep or cleanup that finishes is taken to have ended the worker; the operating system delivering signals, and a process table that cannot be read at that moment, are not modelled. An owner that fails while it reads the readiness line counts as crashed.
- ProcessTree.RegistryIsGenuine: descent is descent as some table showed it; a process that escapes between two tables is not seen, and start stamps have one-second granularity.
- Takeover.World.Request: a request is one exchange; that its bytes are read piece by piece against the same deadline is not modelled.
- IdleInventory.RuntimeIsIdle: the server's answers are a function of the page and its cursor, and of the page and position for a thread, so an inventory that changes while it is read is covered by that function's freedom; the content of a cursor other than null is opaque.
- Injection.ProxyInput.UnsubscribeIdleThreads: the request's number becomes an id by a function that is a parameter, and a failed write is not modelled.
- Bootstrap.ParseOriginalCommand: a command is its bytes, one character each; UTF-8 decoding is not modelled, and no byte the code tests for is part of a longer sequence.
