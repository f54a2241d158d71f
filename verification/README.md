# Shared-memory audio and video rings: a verified model

lalah forwards audio and video from a virtual machine to its host through one block of shared
memory. The guest produces and never waits; the host consumes and must notice when it has been
overtaken. There are two protocols, both lock-free with one producer and one consumer:

* the **audio ring**, a power-of-two byte ring under a producer sequence lock, read by a loop that
  skips forward to keep latency bounded, delivers whole frames and retries when a push overlapped it;
* the **video ring**, a ring of frame slots with no "being written" marker, whose reader accepts a
  copy if the published frame count moved by at most `slot_count - 2` meanwhile.

Around them are the publication gates (a magic or size field stored last and loaded first), the
layout arithmetic, the playback callback, and the loop that forwards frames to a named pipe.

## How the model is built

| file | contents |
|---|---|
| `Wrappers.dfy`, `Words.dfy` | optional and error values; 64-bit arithmetic, `&`, powers of two, `mask`, `align_up_64`, `prev_power_of_two` |
| `Ring.dfy` | window arithmetic of one read, the two-part copy, the payload as an image of the byte stream |
| `AudioSpec.dfy` | the audio ring as an atomic machine (push, read) and the theorems about its whole runs |
| `AudioSteps.dfy` | one action per load or store of `push_overwrite` and `read_quantum`; the invariant; refinement of the atomic machine |
| `AudioTheorems.dfy` | what every interleaving guarantees: exact bytes, conservation, latency, retries, alignment |
| `AudioBuffer.dfy`, `Playback.dfy` | the same code as methods on a header object and an array; the playback callback |
| `AudioCalls.dfy` | what each call gets for its arguments: the producer never waits, a read answers its buffer and budget, retries counted over the run |
| `AudioBridge.dfy` | one side of the step machine running alone does what the methods promise |
| `AudioRuns.dfy` | runs built to order: the bounds on reads are exact, the loop can spin, an oversized push splits a frame |
| `VideoCopy.dfy` | the word-wise copies |
| `VideoSteps.dfy`, `VideoTightness.dfy` | one action per word or byte moved; tear-safety, and that its bound is exact |
| `VideoCalls.dfy` | neither side of the video ring ever waits |
| `VideoBuffer.dfy` | the video handle with its cached geometry |
| `RunVideo.dfy`, `RunVideoTheorems.dfy`, `RunVideoConnections.dfy` | the forwarding loop, running against the producer's steps and a pipe; what it forwards, loses and when it makes progress; how connections end and begin |
| `Gates.dfy`, `Layout.dfy` | publication gates; capacity, region and slot layout, the latency budget |

**Memory model.** Both sides are x86-64 and every shared cell has one writer after initialisation,
so a run is any interleaving of the two sides' loads and store commits, each in program order (total
store order). Delays and the read stagger are arbitrary scheduling; no proof depends on them. A run
is a list of actions of any length; an action that is not enabled does nothing. A load whose address
lies past the ring finds an arbitrary byte.

**Two layers.** In the step layer the two sides are program counters over one shared state, and
safety is an inductive invariant. In the sequential layer the header is an object, the payload an
array, and a ghost history records every byte or frame written. Both layers are tied to the same
specification: `AudioSteps.Linearizes` for interleavings, `ReadOk`/`Overwritten` and
`Playback.SequentialReadIsAtomic` for the methods, and `AudioBridge` between the layers.

## What the proofs found

* **The read loop may never return.** Once a call's frame-rounded budget and the bytes queued for it,
  counting the push being copied, both exceed `capacity`, the recheck at
  `packages/shared/src/lib.rs:359` fails for ever, however the producer goes on; every other call can
  still reply (`AudioTheorems.NeverRepliesIff`). Some run leads there if and only if the frame-rounded
  budget exceeds the capacity (`AudioRuns.SpinsIff`). A call that does reply was retried at most once
  for each push begun during it, whatever its budget (`AudioTheorems.RetriesBounded`).
* **The copy comes before the recheck.** One copy stays inside the ring exactly when
  `start + want <= 2 * capacity` (`Ring.CopyInBounds`). Over all interleavings every load is inside the
  ring if and only if `min(floor(len / frame), floor(max_latency / frame)) * frame <= capacity + 1`
  (`AudioRuns.InRingIff`); above that a run reaches a load past it (`AudioRuns.LeavesRing`).
* **"All offsets are frame-aligned" is conditional.** With whole-frame pushes of any length the
  offsets stay aligned in every run if and only if `frame` divides `capacity`
  (`AudioRuns.InterleavingsAlignedIff`): a longer push is cut to its newest `capacity` bytes. A single
  run is aligned all along if and only if what each push adds is whole frames
  (`AudioRuns.AlignedAlongIff`), as it is when no push is longer than the ring.
* **Video reads are tear-safe if and only if there are at least two slots**
  (`VideoTightness.SafeIffTwoSlots`). The code demands three. The bounds that are safe are
  exactly those up to `slots - 2` (`VideoTightness.SafeBoundIff`). The comment at
  `packages/shared/src/lib.rs:409` speaks of "in practice"; no timing assumption is needed.
* **The slot count is cut to 32 bits before it is compared with the minimum**, so a region with room
  for exactly 2^32 slots is refused as too small (`Layout.HugeRegionRefused`). The published count is the
  intended one if and only if it is a 32-bit number (`Layout.SlotCountIsLargest`).
* **The latency product can exceed 64 bits** (`Layout.LatencyCanWrap`; it wraps in a release build and
  panics in a debug build); the budget means what it says if and only if
  it does not (`Layout.LatencyBytesExact`).
* **The newest frame may be lost.** `run_video` re-samples the count after the copy. If anything was
  published between the copy's load of the count and the re-sampling, the newest of it is counted but
  never forwarded (`RunVideoTheorems.NewestForwardedIff`, `RunVideoTheorems.NewestLost`);
  the loop then stays quiet until the next publication (`RunVideoTheorems.QuietUntilNextPublish`).
* **A connection may start with a frame published before it.** Opening the FIFO samples the count only
  when it fails, so the boundary is the last failed open (`RunVideoTheorems.GapFrameForwarded`).
* **A full pipe hides that its reader left.** The free-space check comes before the write, so without room
  for a frame the loop drops every frame and never notices (`RunVideoConnections.LostReaderUnnoticed`);
  with room it notices at the next frame (`RunVideoConnections.LostReaderNoticed`).

## Model

| member | source | states |
|---|---|---|
| AudioSteps.Linearizes | packages/shared/src/lib.rs:271-369 | every interleaving of the individual loads and stores has the abstract effect of the atomic ring running its linearised pushes and reads in order, and keeps the invariant |
| AudioSteps.NextRefines | packages/shared/src/lib.rs:282-367 | each single load or store keeps the invariant; only the `tail` store and the passing recheck have an effect, that of the atomic push and read |
| AudioSteps.ProduceRefines | packages/shared/src/lib.rs:271-304 | the producer's order (odd, bytes, `tail`, even) keeps the published stream readable whenever `seq` is even |
| AudioSteps.ConsumeRefines | packages/shared/src/lib.rs:321-368 | an iteration that passes the recheck is the atomic read; every other step of the reader changes nothing abstract |
| AudioTheorems.FrozenWhileSeqHolds | packages/shared/src/lib.rs:284-303 | if `seq` is even and later has the same value, no payload byte, no `tail` and no part of the stream changed in between, so the read may be placed at its first load of `seq` |
| AudioTheorems.RepliesAreExact | packages/shared/src/lib.rs:316-368 | no torn read: each returned buffer is its window of the stream, then zeros to the end, whatever rejected attempts copied there; its length is the most whole multiples of `frame_bytes` that are queued and fit, or all of them while `frame_bytes` is 0 |
| AudioTheorems.KeepsNewest | packages/shared/src/lib.rs:334-338 | every read keeps the most whole multiples of `frame_bytes` its budget allows, or everything queued if that is less |
| AudioSpec.FrameUnit | packages/shared/src/lib.rs:318 | the unit of the read arithmetic divides exactly the multiples of `frame_bytes`, and every number while it is 0 |
| Ring.WantIsMost | packages/shared/src/lib.rs:319-341 | a read wants less than a frame less than what is queued and fits |
| Ring.DesyncSaturates | packages/shared/src/lib.rs:329-331 | a `head` past `tail` reads from `tail` |
| AudioTheorems.InterleavingsConserve | packages/shared/src/lib.rs:327-342 | delivered windows are disjoint and increasing; delivered + skipped + queued = `tail`; the output is a gap-free prefix of the stream iff no read was over its budget |
| AudioTheorems.RingHoldsNewest | packages/shared/src/lib.rs:268-303 | between pushes the masked payload holds the newest `capacity` bytes of everything ever handed over, including pushes longer than the ring |
| AudioTheorems.CallbackLatency | packages/lalah-host/src/playback.rs:119-128 | in every interleaving the callback leaves at most `max(max_latency_bytes, frame - 1)` bytes queued |
| AudioTheorems.CallbackLatencyAligned | packages/lalah-host/src/playback.rs:119-128 | if pushes add multiples of `frame_bytes` it leaves a multiple of `frame_bytes`, at most the latency |
| AudioTheorems.CountersAreSound | packages/lalah-host/src/playback.rs:122-131 | in every interleaving a counted overflow means that more than the budget was queued and the read skipped, although `tail` may move between test and read, and the callback counts an underflow iff fewer bytes than its window were queued where the read took effect |
| AudioCalls.OverflowIsCounted | packages/lalah-host/src/playback.rs:119-126 | a backlog over slice and latency when the callback starts is counted as an overflow, whatever is pushed meanwhile |
| AudioCalls.CallbackAnswered | packages/lalah-host/src/playback.rs:119-128 | the callback's reply fills the largest multiple of `frame_bytes` at most the slice, under that window plus the latency as budget, in every interleaving |
| AudioCalls.CallbackReplies | packages/lalah-host/src/playback.rs:119-128 | with a fitting backlog and the producer between pushes the callback ends within `slice + 8` steps |
| AudioCalls.ReadAnswered | packages/shared/src/lib.rs:316 | the next reply after a call fills a buffer of its length under its budget |
| AudioCalls.ReadReplies | packages/shared/src/lib.rs:316-369 | a call into any buffer replies within `len + 6` steps, with a fitting backlog and the producer between pushes |
| AudioCalls.PushNeverWaits | packages/shared/src/lib.rs:271-304 | the producer never waits: a push of any length begins whenever none is in progress and is published within `min(len, cap) + 4` of its own steps, whatever the reader does |
| AudioTheorems.InterleavingsAligned | packages/shared/src/lib.rs:318-363 | if every push adds whole frames to the ring, `head`, `tail`, every jump target and every delivered end are whole frames in every interleaving |
| AudioRuns.AlignedAlongIff | packages/shared/src/lib.rs:273-301 | an interleaving is frame-aligned in each of its states iff every push it published added whole frames |
| AudioRuns.InterleavingsAlignedIff | packages/shared/src/lib.rs:24-25 | whole-frame pushes of any length keep every interleaving aligned iff `frame` divides `capacity` |
| AudioTheorems.RetriesBounded | packages/shared/src/lib.rs:355-361 | in every interleaving and for every budget, a call that replies was retried at most as often as pushes began during it |
| AudioCalls.RetriesArePaid | packages/shared/src/lib.rs:321-361 | counted over the run: the failed rechecks of a call that is accepted are at most as many as the odd stores of `seq` since it began |
| AudioCalls.ReplyReports | packages/shared/src/lib.rs:321-361 | the retries and pushes a reply is charged with are those of the run |
| AudioTheorems.RetrySawPush | packages/shared/src/lib.rs:322-361 | every retry saw a push begin between that iteration's two loads of `seq`, or belongs to a call that no continuation completes |
| AudioTheorems.ReturnsIffBacklogFits | packages/shared/src/lib.rs:321-368 | with the producer between pushes, a call at the top of its loop returns within a stated number of the reader's own steps iff its clamped backlog fits the ring; it never replies, whatever the producer goes on to do, iff it does not |
| AudioTheorems.NeverRepliesIff | packages/shared/src/lib.rs:321-361 | at any point of a call, no continuation of either side makes it reply iff it is not accepted yet, its frame-rounded budget exceeds the capacity, and so does what is queued for it, counting the push being copied |
| AudioTheorems.SoloReturns | packages/shared/src/lib.rs:321-368 | with the producer idle and a fitting backlog the iteration in progress is accepted within `StepsLeft` steps, with no retry |
| AudioTheorems.StuckForever | packages/shared/src/lib.rs:357-361 | such a call stays so under every action sequence of either side, and nothing is replied |
| AudioRuns.Spins | packages/shared/src/lib.rs:357-361 | for every ring, frame size and budget above the ring, a run reaches a call that no continuation completes: a ring's worth and one byte were pushed before it |
| AudioRuns.SpinsIff | packages/shared/src/lib.rs:335-361 | some run reaches a call that no continuation completes iff its frame-rounded budget exceeds the capacity |
| AudioTheorems.LoadsStayInRing | packages/shared/src/lib.rs:344-353 | in every interleaving the copy stays inside the ring if the smaller of rounded buffer and rounded budget is at most `capacity + 1` |
| AudioRuns.LeavesRing | packages/shared/src/lib.rs:344-353 | for every larger buffer and budget a run reaches a load from outside the ring |
| AudioRuns.InRingIff | packages/shared/src/lib.rs:334-353 | all loads of all reads with a given buffer length and budget are inside the ring, in every interleaving, iff the smaller of the two, rounded to frames, is at most `capacity + 1` |
| AudioSpec.RunConserves | packages/shared/src/lib.rs:327-363 | conservation and order for every run of the atomic ring |
| AudioSpec.LosslessIff | packages/shared/src/lib.rs:334-342 | what was played is the stream up to `head` iff no read found more than its rounded budget |
| AudioSpec.RunAligned | packages/shared/src/lib.rs:318-341 | frame alignment of all offsets is an invariant of every run whose pushes add whole frames |
| AudioSpec.RunAlignedIff | packages/shared/src/lib.rs:273-341 | all prefixes of a run are aligned iff every push adds whole frames |
| AudioSpec.AlignmentIff | packages/shared/src/lib.rs:24-25 | whole-frame pushes of any length keep every run aligned iff `frame` divides `capacity` |
| AudioSpec.CutKeepsFrames | packages/shared/src/lib.rs:273-277 | cutting a whole-frame push keeps whole frames iff it is not cut or the capacity is whole frames |
| AudioSpec.LatencyBound | packages/shared/src/lib.rs:334-341 | one read with budget window + latency leaves at most `max(latency, frame - 1)`, and at most the rounded latency if aligned |
| AudioSpec.OverflowIffSkips | packages/lalah-host/src/playback.rs:122-126 | with aligned offsets an overflow is counted iff the read skips bytes |
| AudioSpec.UnderflowIff | packages/lalah-host/src/playback.rs:128-131 | the window is underfilled iff fewer than `window` bytes were queued |
| Ring.NewestOfAppend | packages/shared/src/lib.rs:273-277 | cutting a push to its newest `capacity` bytes never changes the newest `capacity` bytes of the stream |
| Ring.CopyIndexIsMod | packages/shared/src/lib.rs:344-352 | the two runs of a copy visit the ring positions in order |
| Ring.CopyInBounds | packages/shared/src/lib.rs:346-352 | the copy stays in the payload iff `start + want <= 2 * capacity` |
| Words.MaskIsMod | packages/shared/src/lib.rs:264-266 | `pos & (cap - 1)` is `pos mod cap` for every power-of-two capacity |
| Words.MaskAcrossWrap | packages/shared/src/lib.rs:301 | the masked position stays contiguous when `tail` wraps 2^64 |
| Words.WrappingInverse | packages/shared/src/lib.rs:301-359 | wrapping addition and subtraction undo each other, over the wrap too |
| Words.AlignUp64Rounds | packages/shared/src/lib.rs:479-481 | `(n + 63) & !63` is the multiple of 64 in `[n, n + 64)` |
| Words.PrevPowerOfTwoIsLargest | packages/lalah-host/src/main.rs:129-134 | the shifted one is the largest power of two at most `n` |
| AudioBuffer.ShmAudioBuffer.Init | packages/shared/src/lib.rs:156-181 | all cells initialised, format unset, empty stream |
| AudioBuffer.ShmAudioBuffer.Attach | packages/shared/src/lib.rs:189-213 | succeeds iff every check holds, with the host's capacity; each error for exactly its cause |
| AudioBuffer.ShmAudioBuffer.SetFormat | packages/shared/src/lib.rs:238-244 | publishes the four format cells and leaves the ring alone |
| AudioBuffer.ShmAudioBuffer.Format | packages/shared/src/lib.rs:248-261 | the published format, iff the gate is set and the sample format is known |
| AudioBuffer.FormatCodes | packages/shared/src/lib.rs:46-62 | the codes are 0, 1 and 2, formats survive their codes, every other code is unknown |
| AudioBuffer.CopyIntoRing | packages/shared/src/lib.rs:289-298 | the wrapping copy overwrites exactly the next bytes round the ring, and no byte past it |
| AudioBuffer.ShmAudioBuffer.PushOverwrite | packages/shared/src/lib.rs:271-304 | the stream grows by the newest `capacity` bytes of the source, written round the ring from `tail`; an empty push changes nothing; `seq` is even again |
| AudioBuffer.ShmAudioBuffer.FittingCopies | packages/shared/src/lib.rs:334-353 | the next copy stays inside the ring if the backlog kept, the buffer or the rounded budget fits it |
| AudioBuffer.ShmAudioBuffer.ReadAttempt | packages/shared/src/lib.rs:322-367 | one iteration is accepted iff the clamped backlog fits the ring; a rejected one changes only the buffer |
| AudioBuffer.ShmAudioBuffer.ReadQuantum | packages/shared/src/lib.rs:316-369 | the stream from a position that keeps the most whole frames of the budget, as many whole multiples of `frame_bytes` as fit, zeros after them, `head` past exactly what was delivered |
| AudioBuffer.OverwriteExtends | packages/shared/src/lib.rs:289-301 | an overwrite that starts at `tail` makes the payload hold the extended stream |
| AudioBridge.PushAlone | packages/shared/src/lib.rs:282-303 | the producer's stores made without interruption end in the state `PushOverwrite` promises, in `n + 5` steps |
| AudioBridge.ReplyIsReadOk | packages/shared/src/lib.rs:316-369 | every reply of every interleaving meets the contract of the sequential `ReadQuantum` on the stream as it was at its linearization point |
| Playback.PlaybackState.Process | packages/lalah-host/src/playback.rs:106-141 | emits the largest multiple of the stride that fits the buffer, filled with exact audio then silence; the backlog is bounded; overflow is counted iff more than window plus latency was queued (iff bytes are skipped when aligned), underflow iff less than the window |
| Playback.SequentialReadIsAtomic | packages/shared/src/lib.rs:316-369 | the sequential read is the atomic read of the specification |
| Playback.CrossMapping | packages/lalah-host/tests/cross_mapping.rs:16-66 | the host sees the format the guest published and reads back exactly the bytes the guest pushed |
| VideoSteps.TearSafe | packages/shared/src/lib.rs:654-698 | with at least two slots, in every interleaving of word and byte accesses, an accepted copy is exactly the frame it names as far as the buffer reaches, and the rest of the buffer is untouched |
| VideoSteps.DroppedOnlyWhenLapped | packages/shared/src/lib.rs:692-697 | every result in every run is torn or accepted by the distance of its two loaded counts |
| VideoSteps.AcceptedIff | packages/shared/src/lib.rs:679-697 | over any interleaving from a copy's first load of the count to its last byte, the copy is accepted, as the frame it started with, iff at most `slots - 2` publishing stores happened in between |
| VideoCalls.PushNeverWaits | packages/shared/src/lib.rs:654-668 | the writer never waits: the frame, cut or zero-padded, is published within `frame_size + 2` of its own accesses, whatever the reader does |
| VideoCalls.ReadNeverWaits | packages/shared/src/lib.rs:674-698 | a read into any buffer ends within `min(frame_size, len) + 2` of its own accesses, without a frame only if none was published, else with a verdict on a frame no older than the newest |
| VideoSteps.NextKeeps | packages/shared/src/lib.rs:654-698 | every access keeps: the last `slots` frames (one fewer while a slot is being filled) are whole in their slots, and a copy in progress is a prefix of its frame |
| VideoSteps.SlotsApart | packages/shared/src/lib.rs:660-661 | frames fewer than `slots` apart use disjoint slots |
| VideoTightness.BoundIsTight | packages/shared/src/lib.rs:690-697 | for every geometry there is a run with exactly `slots - 1` publications during a copy that is not its frame, and is none of the frames ever stored if a frame takes several accesses |
| VideoTightness.SafeBoundIff | packages/shared/src/lib.rs:690-697 | for every geometry and every bound `b`, accepting `s1 - s0 <= b` gives the exact frame in every run iff `b <= slots - 2` |
| VideoTightness.SafeIffTwoSlots | packages/shared/src/lib.rs:690-697 | every accepted read of every run is exact iff there are at least two slots |
| VideoTightness.OneSlotTears | packages/shared/src/lib.rs:693 | with one slot a torn copy is accepted |
| VideoCopy.VolatileWriteFrame | packages/shared/src/lib.rs:714-735 | the slot holds the source cut or zero-padded to `frame_size`, and no other byte changed |
| VideoCopy.VolatileCopyFromWords | packages/shared/src/lib.rs:739-753 | the slot's bytes, and nothing past them |
| VideoCopy.WordRoundTrip | packages/shared/src/lib.rs:726-745 | a word's bytes survive being stored and loaded as an integer |
| VideoSteps.WidthFollowsLoops | packages/shared/src/lib.rs:717-733 | the step machine's accesses are those of the loops: whole words, then single bytes |
| VideoBuffer.ShmVideoBuffer.Init | packages/shared/src/lib.rs:518-540 | all cells initialised, geometry unset |
| VideoBuffer.ShmVideoBuffer.Attach | packages/shared/src/lib.rs:548-573 | succeeds iff every check holds, with the geometry if already published; each error for exactly its cause |
| VideoBuffer.ShmVideoBuffer.SetGeometry | packages/shared/src/lib.rs:584-609 | publishes the slot count for the region, or refuses a zero size or fewer than three slots and then changes nothing |
| VideoBuffer.ShmVideoBuffer.RefreshGeometry | packages/shared/src/lib.rs:614-642 | the published geometry into the cache, or nothing while the gate is 0 |
| VideoBuffer.ShmVideoBuffer.PushFrame | packages/shared/src/lib.rs:654-668 | one more published frame in the next slot; the newest frames stay in theirs; no other byte changes; nothing happens without geometry |
| VideoBuffer.ShmVideoBuffer.ReadFrame | packages/shared/src/lib.rs:674-698 | the newest frame as far as the buffer reaches, or nothing and an untouched buffer |
| VideoBuffer.CrossMapping | packages/shared/src/lib.rs:654-698 | what the guest publishes and pushes through one handle the host receives through the other, cut or zero-padded to the slot |
| RunVideoTheorems.ForwardsInOrder | packages/lalah-host/src/video.rs:53-119 | forwarded frame numbers strictly increase in every run, so no frame is forwarded twice; what is offered to the pipe is that frame exactly |
| RunVideoTheorems.StreamsAreWholeFrames | packages/lalah-host/src/video.rs:132-158 | on every connection the bytes written are a concatenation of complete frames in increasing order, whatever chunks the reader takes |
| RunVideoConnections.LostReaderNoticed | packages/lalah-host/src/video.rs:108-112 | a reader that left is noticed at the next frame the free-space check lets through: within `frameSize + 7` loop steps, in any interleaving with at most `slots - 2` publications, the connection ends with nothing more sent |
| RunVideoConnections.LostReaderUnnoticed | packages/lalah-host/src/video.rs:132-142 | without room for a frame, and with nothing taken out of the pipe, it is never noticed |
| RunVideoConnections.NewReaderServed | packages/lalah-host/src/video.rs:56-97 | after a successful open with a frame published since the last sample, the first bytes sent are a whole frame no older than the newest |
| RunVideoConnections.NextFrameServed | packages/lalah-host/src/video.rs:56-97 | otherwise the next published frame, or a newer one, is sent whole and first |
| RunVideoConnections.DrainedReaderServed | packages/lalah-host/src/video.rs:132-146 | a reader that empties a pipe large enough for a frame gets the next frame whole |
| RunVideoConnections.StartSkips | packages/lalah-host/src/video.rs:49 | no frame published before the loop started is ever forwarded |
| RunVideo.NextKeeps | packages/lalah-host/src/video.rs:53-119 | every step of the loop, the producer, or the pipe's reader keeps the `last_count` bookkeeping and the whole-frame streams |
| RunVideoTheorems.NewestForwardedIff | packages/lalah-host/src/video.rs:95-97 | over any interleaving from the copy's load of the count to the re-sampling, the newest frame counted is forwarded, then or in any continuation, iff no frame was published in between |
| RunVideoTheorems.NewestLost | packages/lalah-host/src/video.rs:85-97 | for every geometry and pipe size a run with a connected reader comes to rest with the newest frame counted, and no continuation forwards it |
| RunVideoTheorems.CountsPublications | packages/shared/src/lib.rs:667 | over any run the published count grows by exactly the number of publishing stores |
| RunVideoTheorems.ForwardsNewest | packages/lalah-host/src/video.rs:85-97 | progress in every interleaving: with an unseen frame and at most `slots - 2` publications meanwhile, `frameSize + 5` steps of the loop forward a frame, and the first is no older than the newest when the loop looked |
| RunVideoTheorems.WritesNewest | packages/lalah-host/src/video.rs:95-113 | two steps more write that frame whole, if the pipe had room and its reader stays, however it drains |
| RunVideoTheorems.HostHandlesNewest | packages/lalah-host/src/video.rs:85-113 | the loop running alone handles exactly the newest frame within `frameSize + 7` steps: written whole if the pipe has room, dropped whole if not, and then it rests |
| RunVideoTheorems.QuietUntilNextPublish | packages/lalah-host/src/video.rs:76-89 | once `last_count` equals the published count nothing is forwarded until the next publication, whatever part of a frame the producer stores meanwhile |
| RunVideoTheorems.TornIsRetried | packages/lalah-host/src/video.rs:115-118 | after a torn copy `last_count` is the count seen before it, which is behind the published one, so the next step goes for the newest frame again |
| RunVideoTheorems.NoStaleFrames | packages/lalah-host/src/video.rs:76-80 | frames counted by a failed open are never forwarded later |
| RunVideoTheorems.GapFrameForwarded | packages/lalah-host/src/video.rs:56-90 | a successful open does not sample the count: if a frame was published after the last failed open, the new connection, in any interleaving with at most `slots - 2` publications, forwards first the newest such frame or a newer one; if none was, nothing until the next publication |
| Gates.GateSafe | packages/shared/src/lib.rs:162-174 | in every interleaving of one publication with any number of readers, everything a reader loaded past the gate is the published value |
| Gates.ReaderFinishes | packages/shared/src/lib.rs:189-261 | after a complete publication, as many loads by a reader as its protocol has give it every guarded cell as published, whatever other readers do |
| Gates.AttachYieldsCapacity | packages/shared/src/lib.rs:189-213 | an attach that passed the magic succeeds with the host's capacity |
| Gates.AttachSucceeds | packages/shared/src/lib.rs:156-213 | after `init`, an attach that makes its four loads returns the host's capacity |
| Gates.DecodeAttachIff | packages/shared/src/lib.rs:189-213 | attach succeeds iff every check on what it loaded holds |
| Gates.AttachedRingIsEmpty | packages/shared/src/lib.rs:162-174 | whoever has passed the magic finds the counters at 0 and the format unset |
| Gates.VideoAttachSucceeds | packages/shared/src/lib.rs:548-562 | a video attach that passed the magic passes its other checks |
| Gates.VideoAttachCompletes | packages/shared/src/lib.rs:518-562 | after the video `init`, a video attach that makes its three loads passes its checks |
| Gates.AttachedVideoIsEmpty | packages/shared/src/lib.rs:522-531 | whoever has passed the video magic finds no geometry and no frame |
| Gates.FormatYieldsPublished | packages/shared/src/lib.rs:238-261 | a reader that sees `frame_bytes` set gets exactly the producer's format |
| Gates.FormatIsSeen | packages/shared/src/lib.rs:238-261 | after `set_format`, a `format` that makes its four loads returns the format |
| Gates.GeometryYieldsPublished | packages/shared/src/lib.rs:600-642 | a reader that sees `frame_size` set gets the producer's format, slot count and slot stride |
| Gates.GeometryIsSeen | packages/shared/src/lib.rs:600-642 | after `set_geometry`, a `refresh_geometry` that makes its six loads gets the producer's geometry |
| Gates.GeometryStartsStream | packages/shared/src/lib.rs:605-607 | whoever sees the geometry finds the frame count at 0 |
| Layout.CapacityFits | packages/lalah-host/src/main.rs:168-179 | the chosen capacity passes the checks of `init`, is the largest power of two that fits, and ends before the video region |
| Layout.StartsIff | packages/lalah-host/src/main.rs:153-175 | the host starts iff the mapping has room past the header, and past the audio region with video on |
| Layout.VideoRegionIsRest | packages/shared/src/lib.rs:489-494 | the video region exists iff a header fits behind the audio region, and is all of the rest of the mapping |
| Layout.SlotCountIsLargest | packages/shared/src/lib.rs:589-595 | the stride-sized slots counted are the most that fit; the published count is that number, refused below three, iff it is a 32-bit number |
| Layout.HugeRegionRefused | packages/shared/src/lib.rs:592-594 | a region with room for exactly 2^32 slots is refused |
| Layout.SlotsAreDisjoint | packages/shared/src/lib.rs:489-494 | for every mapping size all published slots lie behind the video header, inside the mapping, 64-aligned and pairwise disjoint |
| Layout.SlotsFillMapping | packages/shared/src/lib.rs:489-608 | slots are refused iff not even three fit between the video header and the end of the mapping; otherwise they start at the end of the header and one more would pass the end of the mapping |
| Layout.LatencyBytesExact | packages/lalah-host/src/main.rs:227-229 | the budget is the exact number of whole bytes iff the product fits 64 bits |
| Layout.LatencyCanWrap | packages/lalah-host/src/main.rs:227-229 | factors exist, each 32-bit, for which the budget becomes zero |
| Layout.EndToEndLatency | packages/lalah-host/src/main.rs:227-233 | with whole-frame pushes the callback leaves at most `latency_ms` milliseconds queued, in every interleaving |

## Left out

- Counters past 2^64: a push that would overflow `tail`, `seq` or `frame_seq` is not begun in the step machines; only `Words.MaskAcrossWrap` covers the wrap.
- AudioBuffer.ShmAudioBuffer.PushOverwrite: requires that the counters do not pass 2^64 in this push, where the source wraps; overlap with a read, and the odd `seq` stored in between, are the subject of the step machines.
- VideoBuffer.ShmVideoBuffer.PushFrame: requires that the frame count does not pass 2^64, where the source wraps.
- AudioRuns.InRingIff: the run that leaves the ring is built from one-byte pushes, so it asks that twice the capacity and the largest copy fit a 64-bit counter; the direction that says all loads are inside needs no such room (`AudioTheorems.LoadsStayInRing`).
- AudioRuns.SpinsIff: asks for the same counter room for a ring's worth of one-byte pushes and one more.
- AudioBuffer.ShmAudioBuffer.ReadQuantum: the sequential method requires the clamped backlog to fit the ring, because the loop of the source does not end otherwise; `AudioTheorems.NeverRepliesIff` and `AudioRuns.SpinsIff` state what happens then.
- Playback.PlaybackState.Process: requires the clamped backlog to fit the ring, for the same reason.
- AudioBuffer.ShmAudioBuffer.ReadAttempt: requires the copy to stay inside the ring (the exact condition, `CopyFits`); the step machine covers copies that run past it, with arbitrary bytes there.
- RunVideoTheorems.HostHandlesNewest: for the loop running alone, where which frame is handled and whether it is dropped are determined; `RunVideoTheorems.ForwardsNewest` and `RunVideoTheorems.WritesNewest` are the statements for every interleaving.
- VideoBuffer.ShmVideoBuffer.ReadFrame: in the sequential class the torn branch cannot be taken; `VideoSteps` covers it.
- `frame_bytes` is one constant of a run in the audio step machine: the host starts playback only after the format is published, and the contract says it is published once.
- Re-publishing a format or geometry, a second `init` over live contents, and a producer that dies inside a push.
- Memory models weaker than total store order, and the language-level status of mixing volatile and atomic accesses.
- `write_frame` when the pipe size or the queued count cannot be read: with a pipe of size 0 the model writes nothing; other fallbacks depend on the operating system.
- A second reader that opens the FIFO before the loop has noticed that the first one left.
- The pipe is a queue whose reader only removes bytes and whose writes are whole when they fit; opening, resizing and closing it are arbitrary choices.
- PipeWire, WASAPI, DirectShow, the ivshmem driver, command line, logging, FourCC names, the statistics thread: foreign calls with no property of their own. The producer is any sequence of pushes.
