# Downpour: the storage and scheduling core

A Dafny model of the part of Downpour that decides which bytes of a download are safe, and the
proofs that it decides right. It covers the whole path of a byte: granted to a worker, written,
synced, journalled, made complete in the ownership map, replayed after a crash, compacted,
recovered, verified and named; and the two schedulers that drive it.

`dafny verify dfyconfig.toml` checks everything.

## What is modelled

**Byte ownership.** The canonical interval map (`Intervals`) is a class over a vector of
intervals. Its meaning is one state per byte (`Ownership`), and every mutation is proved equal to
the point-wise update. The canonical vector is unique for its meaning, so nothing is lost by
stating later theorems about bytes. `Allocator` chooses grants and splits.

**Durable commit.** `Storage` is the disk: bytes written since the last data sync may take any
value in a crash, and the journal keeps any byte prefix that is no shorter than what was synced.
`Writer` gives stage and flush as functions of the state and of where the I/O fails, recording
every disk state they pass through; `DurableWriter` carries them out on an object, one disk
operation at a time, and is proved to do the same. `DiskTrace` shows that the record leaves no
operation out. `Actor` and `StateActor` are the actor that
serialises allocate, write, flush, abandon and shutdown from any number of workers, and `Replies`
says what its answers promise, whatever fails. Hashes and checksums are parameters, and no theorem
depends on which they are.

**Journal.** `JournalFormat` and `JournalEncoding` are the codec, `JournalLayout` the place of every
field and what each checksum covers, `Replay` the prefix replay with tail repair, `JournalState` the semantic fold, `Packing` and `Compaction` the compaction with its
atomic replacement.

**Recovery and completion.** `Recovery` rebuilds the map, `CheckpointCache` compares it with the
cached checkpoint and rewrites that, `CrashSafety` joins recovery to the actor's runs over any
number of crashes, with or without a compaction in between, `Completion` and `Naming` verify, seal
and rename.

**Schedulers.** `WorkerPool` is the fixed pool's state and its answer to each event, `WorkerCredit`
follows whose bytes they are, `PoolRuns` is a run as a function of the events that happen,
`PoolPolicy` who is set to work when, and `PoolLoop` the drain, reassign and retry loop that
carries it out, over `Desk`, which is the actor as the pool sees it while storage is healthy.
`SingleStream` and `Sink` are the retry and resume loop of the single stream, against a server that
honours `If-Range` (section 13.1.5 of RFC 9110). `ContentRange` parses and prints `Content-Range` and
proves served ranges (section 14.4 of RFC 9110); `RangeGrammar` is what it accepts, character by
character. `PoolVersions` follows the versions a changing
server mixes into a segmented download. `Simulation` turns what either scheduler asks for into a run
of the actor, and `Delivery` puts the pieces together.

## Main results

- **Crash safety.** `CrashSafety.CompleteForever`: for every command sequence, every I/O failure,
  every crash point and every torn journal tail, over any number of crash, recover and continue
  rounds with or without compaction, a byte complete at any moment of any session is complete with
  its accepted value at the start of every later one. `CrashSafety.AcknowledgedSurvives` is the
  one-crash form.
- **From scheduler to disk.** `Delivery.ExecuteOnActor` and `Delivery.DownloadOnActor`: what a
  download asks of the actor is determined by what its tasks did, and the run of the actor that serves
  exactly those requests ends, on success, with every byte complete. `Delivery.SegmentedFile` and
  `SingleStream.Download` say whose bytes they are: each is that byte of the version that answered the
  request it came with. `Delivery.WholeSurvives`: every crash after that leaves the whole file.
- **Pool safety, conservation and termination.** `PoolLoop.ExecuteSegmented`: under every
  interleaving and every storage failure the run ends; success means every byte is done and the
  reports add up to the bytes that were missing, and for every worker to the bytes its own requests
  stored; failure happens exactly at a fatal event and leaves no byte in progress unless storage was
  lost; the exits for a stuck scheduler and a refused allocation are never taken.
- **Answers mean what they say.** `Replies.ControlSettles`, `Replies.ShutdownCommits` and
  `Replies.FlushReceipts`: whatever fails, an answer that is not a refusal speaks of bytes on disk.
- **Named only when verified.** `Naming.NamedAfterAnyRun`; `Naming.CompletionCrashRecovers` for a
  crash while the seal is written and `Naming.RenameCrashRecovers` for one after the rename.
- **No splice across retries**, and no retry that starts over where it could continue.
  `SingleStream.Download`.
- **Compaction preserves meaning, wherever it is interrupted.** `Compaction.CompactOnDisk`, with
  `Compaction.CompactionKeepsMeaning`, `Compaction.RecompactionIdentical` and
  `Compaction.RecoveryAfterCompaction`.
- **Replay is prefix-exact**, the **codecs are bijections**, the **fold has a closed form**, the
  **allocator's decision is exact**, and **no byte is accepted twice** in any run (`Actor.WrittenOnce`).

Five statements one might expect are false of this code, and each comes with its exact condition.

- Reconciling a download a second time repeats the first verdict if and only if the journal records no
  shortening and the part file still held every surviving block the first time
  (`Recovery.ReconcileTwice`; `RecoveryExamples.ShortPartFile` and `RecoveryExamples.RecordedTruncation`
  are downloads where it does not).
- The bytes a worker holds stay one interval after a completion if and only if the completed range
  touches an end of the interval (`Allocator.CompletionKeepsOneIff`, `Allocator.MiddleCompletion`). The
  pool's workers write in order, so there it holds.
- A segmented file is one version if its answers were, and where versions differ in every byte only
  then (`PoolVersions.OneVersionIff`): the workers send no `If-Range`. It can even keep a byte of a
  version of another length, from a task that was cut short (`PoolVersions.LengthsIff`).
  `PoolExamples.MixedVersions` and `PoolExamples.OtherLength` are such downloads.
- Recovery of an intact download succeeds if and only if the journal proves at most a million ranges
  (`CheckpointCache.RowIsProven`, `CheckpointCache.FragmentedRefused`): with more, writing the
  checkpoint is an error.
- Recovery after a crash that follows the rename calls the download failed if and only if the rename
  survived (`Naming.RenameCrashRecovers`). The verified file is then under its final name.

The module comment of `SingleStream::download` in the source says each attempt restarts from byte
0. The code resumes from the durable prefix when it has a validator, and the model follows the
code.

## Assumptions

- A command the actor takes from its queue is served before the next one, in order. The pool's
  view of a worker's write as one step rests on that order: whatever a cancelled worker had sent
  is served before the flush the pool sends next.
- The run of the actor that `Delivery` gives for a pool run is served without a storage failure up
  to the point where the pool reports one, and starts with a sequence number left for each missing
  byte. What the actor does from a failure on is covered by `Actor.RunSound` and `CrashSafety`.
- A `Content-Range` gives the true length of the version it is served from.
- Some running task eventually ends. `PoolLoop` bounds the time until then by an arbitrary number.
- A pool run starts on a map nobody works on, as a fresh or recovered download has.
- Versions of a representation that can be told apart by `If-Range` never share a validator, and a
  206 to a conditional request comes from the version its validator names.
- The body of a 206 is the part its own `Content-Range` names, and the body of a 200 is the version
  from its first byte. So is the body of a 206 that answers a request without a range: the source
  accepts such a response and does not read its `Content-Range`.
- Files are no longer than a `u64`, and for compaction no longer than an `i64`, can express.

## Model

| member | source | states |
|---|---|---|
| `Intervals.CanonicalUnique` | crates/downpour-intervals/src/lib.rs:333-415 | two vectors that satisfy the invariant and have the same byte-to-state function are the same vector |
| `Intervals.CanonicalIsRuns` | crates/downpour-intervals/src/lib.rs:376-415 | a canonical vector is the run-length encoding of its meaning |
| `Intervals.RunsDescribe` | crates/downpour-intervals/src/lib.rs:386-395 | the run-length encoding tiles the bytes, is merged, and gives every byte its own state |
| `Intervals.IntervalIsRun` | crates/downpour-intervals/src/lib.rs:386-395 | every interval of a canonical vector is a maximal constant stretch of bytes |
| `Intervals.IntervalMap.constructor` | crates/downpour-intervals/src/lib.rs:186-200 | a new map is canonical and every byte is pending |
| `Intervals.IntervalMap.Grant` | crates/downpour-intervals/src/lib.rs:218-229 | accepted exactly when the range is valid and every byte of it pending; then exactly those bytes move, and a refusal changes nothing |
| `Intervals.IntervalMap.SplitInProgress` | crates/downpour-intervals/src/lib.rs:235-269 | accepted exactly when the point lies strictly inside one run of the source; the recipient gets everything from there to the end of that run |
| `Intervals.IntervalMap.Complete` | crates/downpour-intervals/src/lib.rs:275-293 | accepted exactly when every byte of the range belongs to the worker; then exactly those bytes become complete |
| `Intervals.IntervalMap.Abandon` | crates/downpour-intervals/src/lib.rs:299-309 | every byte of the worker and no other becomes pending, and the exact number of them is returned |
| `Intervals.IntervalMap.RangeMatches` | crates/downpour-intervals/src/lib.rs:322-331 | answers whether every byte of the range satisfies the test |
| `Intervals.IntervalMap.ReplaceRange` | crates/downpour-intervals/src/lib.rs:333-374 | the canonical partition is kept and exactly the bytes of the range change state |
| `Intervals.IntervalMap.Normalise` | crates/downpour-intervals/src/lib.rs:376-384 | merging neighbours keeps the meaning and makes the vector canonical |
| `Intervals.IntervalMap.InvariantsHold` | crates/downpour-intervals/src/lib.rs:397-415 | the runtime check is true exactly of gap-free, non-empty, merged partitions |
| `Ownership.DisjointCompletionsCommute` | crates/downpour-intervals/src/lib.rs:275-293 | completing two disjoint owned ranges succeeds in either order with the same result |
| `Ownership.SplitThenCompleteBoth` | crates/downpour-intervals/src/lib.rs:235-293 | splitting a grant and completing both halves equals completing the whole grant |
| `Ownership.ReleaseCounts` | crates/downpour-intervals/src/lib.rs:299-309 | abandoning moves exactly the counted bytes from the worker to pending |
| `Ownership.Refusals` | crates/downpour-intervals/src/lib.rs:218-293 | what each mutation accepts, byte by byte, and which error it gives otherwise |
| `Allocator.PreferredIsMaximum` | crates/downpour-engine/src/lib.rs:187-214 | the selection is a wanted interval no wanted interval beats, and is absent only when none is wanted |
| `Allocator.AllocatePending` | crates/downpour-engine/src/lib.rs:130-170 | an idle worker gets the largest pending run, lowest offset first on ties, whole |
| `Allocator.AllocateSplit` | crates/downpour-engine/src/lib.rs:130-170 | with nothing pending, the largest active run of at least twice the minimum is cut in the middle, the new grant the larger half by at most a byte, and neither smaller than the minimum |
| `Allocator.AllocateNone` | crates/downpour-engine/src/lib.rs:130-170 | allocation for an idle worker never errs, and gives nothing exactly when nothing is pending and every active run is shorter than twice the minimum, also where doubling overflows |
| `Allocator.AllocateBusy` | crates/downpour-engine/src/lib.rs:130-170 | allocation is refused exactly to a worker that still holds a byte, and then nothing changes |
| `Allocator.SegmentAllocator.Create` | crates/downpour-engine/src/lib.rs:103-111 | a zero minimum is the only refusal; otherwise everything is pending |
| `Allocator.SegmentAllocator.Allocate` | crates/downpour-engine/src/lib.rs:130-170 | the decision taken on the interval vector is the decision on the byte map |
| `Allocator.SegmentAllocator.SplitLargest` | crates/downpour-engine/src/lib.rs:130-170 | the split taken on the interval vector is the split of the byte map |
| `Allocator.SegmentAllocator.CompleteDurable` | crates/downpour-engine/src/lib.rs:173-180 | completion through the allocator is completion of the map, refusals included |
| `Allocator.CompletionKeepsOneIff` | crates/downpour-engine/src/lib.rs:173-180 | completing part of the one interval a worker holds leaves one interval exactly when the part touches an end of it |
| `Allocator.MiddleCompletion` | crates/downpour-engine/src/lib.rs:173-180 | a concrete map on which completing the middle byte leaves the worker two intervals |
| `Allocator.SegmentAllocator.Abandon` | crates/downpour-engine/src/lib.rs:183-185 | abandoning through the allocator releases and counts exactly the bytes of the worker |
| `LittleEndian.FromToLE` | crates/downpour-storage/src/journal/format.rs:450-475 | reading back a little-endian number gives the number |
| `LittleEndian.ToFromLE` | crates/downpour-storage/src/journal/format.rs:450-475 | writing a number that was read gives back the same bytes |
| `JournalFormat.HeaderRoundTrip` | crates/downpour-storage/src/journal/format.rs:83-137 | decoding an encoded header followed by anything gives the header, for any checksum |
| `JournalFormat.HeaderCanonical` | crates/downpour-storage/src/journal/format.rs:83-137 | a header that decodes re-encodes to exactly the bytes it was read from |
| `JournalFormat.PayloadRoundTrip` | crates/downpour-storage/src/journal/format.rs:350-414 | every payload decodes to its record |
| `JournalFormat.PayloadCanonical` | crates/downpour-storage/src/journal/format.rs:350-414 | every payload that decodes is the encoding of the record |
| `JournalFormat.FrameRoundTrip` | crates/downpour-storage/src/journal/format.rs:203-270 | decoding an encoded frame followed by anything gives the record and the length of its frame, for any checksum; JournalLayout says which bytes that is |
| `JournalFormat.FrameCanonical` | crates/downpour-storage/src/journal/format.rs:203-270 | a frame that decodes re-encodes to exactly the bytes consumed, checksum included |
| `JournalFormat.FrameCut` | crates/downpour-storage/src/journal/format.rs:230-270 | a frame cut anywhere is reported as truncated, never as corrupt |
| `JournalEncoding.EncodeHeaderBytes` | crates/downpour-storage/src/journal/format.rs:83-96 | filling the 72-byte buffer field by field writes the encoding, and the last four bytes are the checksum of the 68 before them |
| `JournalEncoding.EncodeFrameBytes` | crates/downpour-storage/src/journal/format.rs:203-224 | growing the byte vector writes the encoding, whose last four bytes are the checksum of all the bytes before them; an oversized payload is refused |
| `JournalLayout.HeaderLayout` | crates/downpour-storage/src/journal/format.rs:83-96 | where each header field is, byte for byte: magic, version 1, no flags, identity, length, block size, validator hash, and the checksum of the first 68 bytes |
| `JournalLayout.HeaderChecked` | crates/downpour-storage/src/journal/format.rs:101-137 | a header is accepted exactly if it is whole, has magic, version 1 and no flags, and its checksum is that of the 68 bytes before it; a wrong one is reported with both values |
| `JournalLayout.FrameLayout` | crates/downpour-storage/src/journal/format.rs:203-224 | where each frame field is, byte for byte: sequence number, kind, payload length, payload, and the checksum of every byte before it; only a payload over 65,535 bytes has no frame |
| `JournalLayout.PayloadBytes` | crates/downpour-storage/src/journal/format.rs:350-378 | the bytes of the payload of each kind of record |
| `JournalLayout.FrameChecked` | crates/downpour-storage/src/journal/format.rs:230-270 | a whole frame is refused for its checksum exactly when that is not the checksum of every byte before it, with number, stored and computed value in the report |
| `JournalLayout.DamageStops` | crates/downpour-storage/src/journal/replay.rs:83-187 | a frame with a wrong checksum ends the replay there: exactly the records before it are returned, and repair cuts the file there |
| `JournalLayout.GapStops` | crates/downpour-storage/src/journal/replay.rs:102-187 | so does an intact frame whose number is not the next one, and the stop names both numbers |
| `JournalLayout.AnyByteProtected` | crates/downpour-storage/src/journal/format.rs:230-270 | changing any bytes of a frame other than the length and the checksum, so that the checksum tells them apart, makes it such a frame |
| `Replay.ReplayPrefixExact` | crates/downpour-storage/src/journal/replay.rs:102-187 | cutting a well-formed journal past its header returns exactly the records wholly before the cut and their boundary |
| `Replay.ReplayJournal` | crates/downpour-storage/src/journal/replay.rs:102-187 | an uncut journal replays to all its records and a clean end |
| `Replay.ReplayHeaderCut` | crates/downpour-storage/src/journal/replay.rs:102-187 | a cut inside the header is fatal |
| `Replay.ReplayCanonical` | crates/downpour-storage/src/journal/replay.rs:83-187 | whatever bytes are replayed, the part that is kept is the encoding of the records returned |
| `Replay.RepairIdempotent` | crates/downpour-storage/src/journal/replay.rs:92-100 | a repaired file replays to the same records with a clean end and is not changed again |
| `Replay.RepairChanges` | crates/downpour-storage/src/journal/replay.rs:92-100 | repair changes a file exactly when its replay does not end cleanly |
| `Replay.AppendExtends` | crates/downpour-storage/src/journal/replay.rs:92-187 | after repair, appending the next-numbered frame extends replay by exactly that record |
| `Replay.ReadUpTo` | crates/downpour-storage/src/journal/replay.rs:203-214 | however reads are chunked or interrupted, the buffer is filled as far as the file goes |
| `Replay.ReadFrame` | crates/downpour-storage/src/journal/replay.rs:102-187 | one frame is read, found unusable or absent exactly as the whole remaining file says |
| `Replay.ReplayReader` | crates/downpour-storage/src/journal/replay.rs:102-187 | replay through a reader gives the same result for every chunking of its reads |
| `JournalState.FoldClosedForm` | crates/downpour-storage/src/journal/state.rs:60-131 | the fold succeeds exactly when every record fits the length then in force, and then has a closed form |
| `JournalState.EffectiveClosedForm` | crates/downpour-storage/src/journal/state.rs:60-131 | the surviving blocks are exactly the recorded ones ending within the final length, in order and disjoint |
| `JournalState.EffectiveSucceedsIff` | crates/downpour-storage/src/journal/state.rs:60-131 | the fold accepts a journal exactly when every record fits and the survivors are pairwise disjoint |
| `JournalState.SortByOffsetSorts` | crates/downpour-storage/src/journal/state.rs:60-131 | sorting the blocks permutes them into offset order |
| `JournalState.ComputeEffective` | crates/downpour-storage/src/journal/state.rs:60-131 | the loop over the records and the pass over the sorted blocks compute the fold, errors included |
| `CommitOrder.FlushSound` | crates/downpour-storage/src/writer.rs:344-415 | every disk state of a flush, wherever it fails, is durable; success leaves the writer healthy and any failure leaves what is recorded intact |
| `CommitOrder.FlushProgress` | crates/downpour-storage/src/writer.rs:344-415 | a flush never loses a record that was on disk, moves only staged bytes to complete, and is never rejected by the map |
| `CommitOrder.StageProgress` | crates/downpour-storage/src/writer.rs:253-318 | a write extends the history only at bytes never accepted before, whatever fails during it |
| `CommitOrder.WritableIsFresh` | crates/downpour-storage/src/writer.rs:477-508 | a range that passes the guards has never been accepted and belongs wholly to its writer |
| `CommitOrder.WriteAside` | crates/downpour-storage/src/writer.rs:253-318 | a failed write can only disturb bytes that nothing durable depends on |
| `CommitOrder.CompleteAllStaged` | crates/downpour-storage/src/writer.rs:344-415 | completing a whole batch on the map succeeds and completes exactly the staged bytes |
| `DurableWriting.DurableWriter.TryNew` | crates/downpour-storage/src/writer.rs:226-246 | a part file and journal that disagree about the length are refused |
| `DurableWriting.DurableWriter.Stage` | crates/downpour-storage/src/writer.rs:253-318 | the object, its disk and its map end as the specification of a stage says, guards in order and failures included |
| `DurableWriting.DurableWriter.Flush` | crates/downpour-storage/src/writer.rs:344-415 | the object, its disk and its map end as the specification of a flush says; the map is swapped only after both syncs |
| `DurableWriting.DurableWriter.FlushIfDue` | crates/downpour-storage/src/writer.rs:321-336 | a flush happens exactly when the oldest staged block has reached the age bound |
| `DurableWriting.DurableWriter.CommitToDisk` | crates/downpour-storage/src/writer.rs:389-402 | data sync, frames in order and journal sync visit exactly the specified disk states for every failure point |
| `DurableWriting.DurableWriter.CompleteStaged` | crates/downpour-storage/src/writer.rs:351-357 | completing the staged blocks one by one on a copy gives the map after the batch or the first rejection |
| `DurableWriting.DurableWriter.CheckStage` | crates/downpour-storage/src/writer.rs:261-279 | the guards of a write answer in their order, without touching map or disk |
| `DurableWriting.DurableWriter.FindOverlap` | crates/downpour-storage/src/writer.rs:494-508 | the first staged block the range touches is found |
| `Actor.StepSound` | crates/downpour-engine/src/writer_service.rs:366-433 | one command of any kind, with any I/O failure, keeps the download sound, loses nothing complete and passes only through survivable disk states |
| `Actor.RunSound` | crates/downpour-engine/src/writer_service.rs:329-364 | over any stretch of any run, accepted bytes stay accepted, complete bytes stay complete, synced records stay synced |
| `Actor.RunCurrent` | crates/downpour-engine/src/writer_service.rs:329-364 | the last disk state recorded is the current one, and disk states are only added |
| `DiskTrace.CommitGapless` | crates/downpour-storage/src/writer.rs:389-402 | the disk states of a commit, wherever it fails, leave no disk operation out |
| `DiskTrace.StepTraced` | crates/downpour-storage/src/writer.rs:253-420 | nor do those recorded by any command, whatever fails: between two of them lies one write, one append or one sync |
| `DiskTrace.RunTraced` | crates/downpour-engine/src/writer_service.rs:329-364 | so over any run the states a crash can stop in are all there |
| `Actor.WriteOnce` | crates/downpour-engine/src/writer_service.rs:375-404 | an accepted byte was owned by its writer and never accepted before; a stale handle is refused before any disk operation |
| `Actor.WrittenOnce` | crates/downpour-engine/src/writer_service.rs:375-404 | over any run, whatever is split, abandoned, retried or fails, two accepted writes never share a byte |
| `Actor.FlushNeverRejected` | crates/downpour-engine/src/writer_service.rs:406-410 | through the actor the interval map never rejects a flush |
| `Replies.ControlSettles` | crates/downpour-engine/src/writer_service.rs:366-433 | whatever fails, an allocate, flush, abandon or shutdown either could not flush, and moves no byte, or leaves nothing waiting and complete exactly the bytes accepted so far |
| `Replies.ControlAnswers` | crates/downpour-engine/src/writer_service.rs:366-433 | what each control command does and answers, whatever fails: the batch could not be flushed and the command is refused, or everything accepted is complete first, the receipts are those of the flush, and the command acts on that map; a snapshot shows the map as it is |
| `Replies.ShutdownCommits` | crates/downpour-engine/src/writer_service.rs:430-433 | whatever fails, shutdown stops the actor; a snapshot in reply has every accepted byte complete, and otherwise the batch could not be flushed and the map is as it was |
| `Replies.WriteRefusals` | crates/downpour-engine/src/writer_service.rs:375-404 | a write is refused before any disk operation exactly if its range is not all granted to its writer, meets a waiting block, is too large, or the writer is poisoned; nothing changes, and the reply names the first cause |
| `Replies.FailedWrite` | crates/downpour-storage/src/writer.rs:282-302 | a write without space commits what was accepted before, names the offset and lets the writer go on; any other failed write poisons it and moves no byte |
| `Replies.PoisonedReplies` | crates/downpour-storage/src/writer.rs:456-462 | a poisoned writer refuses every command for that reason and does nothing |
| `ActorService.StoppedStep` | crates/downpour-engine/src/writer_service.rs:329-364 | a stopped actor refuses everything and changes nothing |
| `Replies.FlushReceipts` | crates/downpour-storage/src/writer.rs:344-415 | the receipts of a flush: one for each waiting block, in order and numbered on, each true of disk, journal and map; no byte becomes complete without one |
| `Replies.DurableCounted` | crates/downpour-storage/src/writer.rs:389-420 | the running count of durable bytes grows by exactly the bytes that became complete, until it saturates |
| `Replies.StepTallied` | crates/downpour-storage/src/writer.rs:253-420 | every command, whatever fails, keeps the size and the age of the batch those of its blocks |
| `Replies.BatchBounded` | crates/downpour-storage/src/writer.rs:253-318 | an accepted write joins the batch while that stays below 8 MiB, and is committed with it otherwise; the batch is as old as its first block |
| `Replies.TickBounded` | crates/downpour-storage/src/writer.rs:321-336 | an answered tick has committed the batch if its first block is two seconds old, and has done nothing otherwise |
| `ActorService.StateActor.Serve` | crates/downpour-engine/src/writer_service.rs:329-364 | serving a command on the object does what the specification of a step says and gives its reply |
| `ActorService.StateActor.Run` | crates/downpour-engine/src/writer_service.rs:329-364 | the receive loop leaves a run of the specified state machine, whatever is sent and whatever fails |
| `ActorService.StateActor.Write` | crates/downpour-engine/src/writer_service.rs:375-404 | a write the current map does not allow is refused as a value before the writer sees it |
| `ActorService.GrantWriter.Write` | crates/downpour-engine/src/writer_service.rs:455-492 | the cursor moves only over accepted bytes, never past the grant; a payload over 256 KiB or past the grant never reaches the actor and the error has its figures; otherwise the answer is that of the actor |
| `CrashSafety.PlainFolds` | crates/downpour-storage/src/journal/state.rs:60-131 | every record prefix the writer can leave folds without error, to exactly the bytes it covers |
| `CrashSafety.CrashReplays` | crates/downpour-storage/src/journal/replay.rs:102-187 | after any crash replay finds a prefix of the records, no shorter than what was synced |
| `CrashSafety.CrashSafe` | crates/downpour-storage/src/recovery.rs:303-347 | after any crash recovery succeeds; each byte it calls complete is on disk as accepted, and every synced byte is complete |
| `CrashSafety.RestartHealthy` | crates/downpour-storage/src/recovery.rs:248-369 | the rebuilt map with a fresh writer satisfies the invariant the next session starts from |
| `CrashSafety.LifeSafe` | crates/downpour-storage/src/writer.rs:253-415 | one session stopped at any disk state loses nothing that was complete at any moment up to it, and hands over a healthy start with nothing granted |
| `CrashSafety.AcknowledgedSurvives` | crates/downpour-storage/src/writer.rs:344-415 | bytes complete in the live map after any command are complete after a crash in the disk state of that moment or any later one, and recovered bytes are accepted bytes |
| `CrashSafety.SessionsSafe` | crates/downpour-storage/src/recovery.rs:219-369 | over any number of crash, tidy, recover and continue rounds, from any session to any later one, a complete byte keeps its value and its place on disk |
| `CrashSafety.CompleteForever` | crates/downpour-storage/src/recovery.rs:219-369 | a byte complete at any moment of any session is complete, with its accepted value, at the start of every later session, however soon the crash comes |
| `CrashSafety.CompactedPlain` | crates/downpour-storage/src/journal/compaction.rs:189-232 | the compacted form of a journal the writer can leave is one the writer can leave, over the same bytes |
| `CrashSafety.TidiedDurable` | crates/downpour-storage/src/journal/compaction.rs:64-77 | a journal compacted after a crash is durable and covers every synced byte, so a session can start from it |
| `CrashSafety.MendedDurable` | crates/downpour-storage/src/journal/replay.rs:92-100 | so is one whose damaged tail has been cut off |
| `CrashSafety.FirstSession` | crates/downpour-storage/src/writer.rs:68-117 | a new journal with only its header is a sound start |
| `Recovery.MergeKeepsBytes` | crates/downpour-storage/src/recovery.rs:375-387 | merging touching blocks keeps the covered bytes, the order and the last end |
| `Recovery.RebuildExact` | crates/downpour-storage/src/recovery.rs:330-347 | rebuilding never fails on ordered ranges inside the length, and completes exactly their bytes |
| `Recovery.ReconcileExact` | crates/downpour-storage/src/recovery.rs:303-369 | the reconciled map is complete exactly on the surviving blocks the part file still holds, and the count and sequence are exact; the row says paused with no failure, the length and the number of complete bytes of that map, and range support exactly if it was known and the last truncation, if any, is to the old length; the report says what was found of the two files |
| `Recovery.ReconcileRefusals` | crates/downpour-storage/src/recovery.rs:219-330 | a download ends paused exactly when its record, part file and journal allow it; an unknown one and one that is already completed or failed are errors |
| `Recovery.ReconcileReasons` | crates/downpour-storage/src/recovery.rs:219-330 | each failure kind is reported exactly for its own condition, and the map rebuild never fails |
| `Recovery.ReconcileWithout` | crates/downpour-storage/src/recovery.rs:252-300 | without a journal the download is paused with nothing complete, and its row keeps its length and its range support |
| `Recovery.FailedRow` | crates/downpour-storage/src/recovery.rs:219-330 | a failed download keeps length and range support in its row, which names the reported reason; the map is all pending, no part byte is lost and the journal loses at most a damaged tail |
| `Recovery.ReconcileTwice` | crates/downpour-storage/src/recovery.rs:219-369 | a second reconciliation repeats the verdict exactly when nothing was shortened and no surviving block was lost from the part file |
| `Recovery.ShortenedRefused` | crates/downpour-storage/src/recovery.rs:303-309 | after an effective truncation a second reconciliation gives a verdict, and it is a refusal as mismatched |
| `Recovery.MergeBlocks` | crates/downpour-storage/src/recovery.rs:375-387 | the merge loop computes the merged ranges |
| `Recovery.RebuildMap` | crates/downpour-storage/src/recovery.rs:332-347 | granting and completing each range on a fresh canonical map gives the rebuilt map and the exact byte count |
| `Recovery.ReconcileDownload` | crates/downpour-storage/src/recovery.rs:219-487 | the decision sequence, step by step, ends with the specified record, files and report; a download that resumes leaves the row described above |
| `RecoveryExamples.ShortPartFile` | crates/downpour-storage/src/part_file.rs:105-174 | a concrete download whose second reconciliation counts a lost byte again |
| `RecoveryExamples.RecordedTruncation` | crates/downpour-storage/src/recovery.rs:468-504 | a concrete download whose second reconciliation is refused |
| `CheckpointCache.SeparatedUnique` | crates/downpour-storage/src/recovery.rs:375-387 | ranges that do not touch are determined by their bytes |
| `CheckpointCache.CompleteRangesOf` | crates/downpour-storage/src/recovery.rs:490-501 | the complete intervals of a canonical map do not touch and cover exactly its complete bytes |
| `CheckpointCache.SavedIsProven` | crates/downpour-storage/src/recovery.rs:468-504 | the checkpoint written for a rebuilt map lists exactly the merged ranges of the journal |
| `CheckpointCache.LaggingCache` | crates/downpour-storage/src/recovery.rs:394-433 | a checkpoint that claims nothing beyond the journal is reported as agreeing or lagging, and as agreeing exactly when it claims the same bytes |
| `CheckpointCache.Compared` | crates/downpour-storage/src/recovery.rs:394-433 | the report, said of the bytes that cache and journal claim: agreement exactly if they are the same, otherwise whichever has more is ahead, by these counts; a row for another length is unreadable |
| `CheckpointCache.RowIsProven` | crates/downpour-storage/src/recovery.rs:350-504 | recovery succeeds exactly when the journal proves at most a million ranges; then, whatever the cache held, its row becomes the ranges the journal proves and the report is the comparison with what it held |
| `CheckpointCache.ByteLimitUnused` | crates/downpour-storage/src/metadata.rs:652-673 | the 64-mebibyte limit on an encoded checkpoint is never reached, so a row is refused exactly for its number of ranges |
| `CheckpointCache.FragmentedRefused` | crates/downpour-storage/src/metadata.rs:2304-2315 | a concrete map with one range too many, for which recovery fails |
| `CheckpointCache.SecondAgrees` | crates/downpour-storage/src/recovery.rs:350-504 | a second recovery finds the checkpoint of the first in agreement exactly when the part file had held every surviving block, otherwise lagging, never ahead; either fails exactly on more than a million ranges |
| `Packing.PackedUnique` | crates/downpour-storage/src/journal/compaction.rs:79-127 | the bytes covered and the part file determine the merged blocks |
| `Packing.MergedFewer` | crates/downpour-storage/src/journal/compaction.rs:79-127 | merging never makes more blocks than there were |
| `Packing.FeedMerge` | crates/downpour-storage/src/journal/compaction.rs:129-175 | bytes go into runs of at most u32::MAX with the digest of the part bytes, a new run starting only where the last is full |
| `Packing.FinishedPacked` | crates/downpour-storage/src/journal/compaction.rs:177-187 | finishing a run keeps the merged blocks packed and covers exactly what was fed |
| `Packing.ReadBlock` | crates/downpour-storage/src/journal/compaction.rs:95-116 | a block read through the buffer is hashed and fed whole |
| `Packing.VerifyAndMerge` | crates/downpour-storage/src/journal/compaction.rs:79-127 | succeeds exactly when every block is intact in the part file; the merged blocks cover the same bytes with true digests, and a damaged block is named |
| `Compaction.CompactMeaning` | crates/downpour-storage/src/journal/compaction.rs:189-232 | folding the compacted records gives the original length, truncation, identities and seal over the merged blocks |
| `Compaction.EncodeReplacement` | crates/downpour-storage/src/journal/compaction.rs:189-232 | the replacement is the encoding of the compacted records, refused exactly when it cannot be expressed |
| `Compaction.CompactJournal` | crates/downpour-storage/src/journal/compaction.rs:64-77 | compaction succeeds exactly when the journal replays and folds and every block is intact; otherwise the error says which of these fails, and names the first damaged block |
| `Compaction.CompactionKeepsMeaning` | crates/downpour-storage/src/journal/compaction.rs:64-77 | a compacted journal replays cleanly and says the same, with the same bytes covered |
| `Compaction.CompactionCheckpoint` | crates/downpour-storage/src/journal/compaction.rs:189-232 | a compacted journal has exactly one checkpoint, with the number of bytes covered and the clock given |
| `Compaction.CompactionUnique` | crates/downpour-storage/src/journal/compaction.rs:64-77 | a journal, a part file and a clock have one compacted form |
| `Compaction.RecompactionIdentical` | crates/downpour-storage/src/journal/compaction.rs:64-77 | compacting a compacted journal with the same clock succeeds and gives the same bytes |
| `Compaction.RecoveryAfterCompaction` | crates/downpour-storage/src/recovery.rs:303-369 | recovery rebuilds the same map from a compacted journal as from the original |
| `Compaction.ReplaceAtomically` | crates/downpour-storage/src/journal/compaction.rs:246-268 | at every step, stopped anywhere, a crash finds the old journal or the whole new one; the states leave no operation out |
| `Compaction.CompactionCrashSafe` | crates/downpour-storage/src/journal/compaction.rs:64-268 | the journal, its repaired form and its compacted form all mean the same |
| `Compaction.CompactionSmall` | crates/downpour-storage/src/journal/compaction.rs:189-232 | a compacted journal is at most one checkpoint longer than the original |
| `Compaction.RepairedSays` | crates/downpour-storage/src/journal/replay.rs:92-100 | cutting off a damaged tail changes nothing a journal says |
| `Compaction.RepairOnDisk` | crates/downpour-storage/src/journal/replay.rs:92-100 | at every step a crash finds the journal or its repaired form; the states leave no operation out |
| `Compaction.CompactOnDisk` | crates/downpour-storage/src/journal/compaction.rs:64-77 | repair, compaction and replacement on disk: whatever step fails and whenever the crash comes, the journal found means what the original meant; without a failure it succeeds exactly when the journal folds and every block is intact; the states leave no operation out |
| `Completion.CheckCoverage` | crates/downpour-storage/src/completion.rs:253-278 | passes exactly when every byte is complete and the length is right; otherwise reports the exact count and the first gap |
| `Completion.ConstantTimeEq` | crates/downpour-storage/src/completion.rs:342-351 | the accumulated difference is zero exactly when the digests are equal |
| `Completion.HashFile` | crates/downpour-storage/src/completion.rs:281-320 | both digests are those of the whole file, however it is read |
| `Completion.CheckDigest` | crates/downpour-storage/src/completion.rs:182-209 | a digest of at most 128 characters that decodes to 32 bytes for SHA-256, or 64 for SHA-512, is verified if it is that of the file and a mismatch otherwise; any other decides nothing |
| `Completion.AgreesDecides` | crates/downpour-storage/src/completion.rs:182-209 | what the decoder makes of a digest is that decision, with the lengths written out |
| `Completion.ContradictsIff` | crates/downpour-storage/src/completion.rs:182-209 | a digest keeps a file from being named exactly when it reads as another than the digest of the file |
| `Completion.SealAndRename` | crates/downpour-storage/src/completion.rs:222-250 | the name appears only after the whole seal is appended and synced, whatever fails; the disk states leave no operation out |
| `Completion.VerifyAndRename` | crates/downpour-storage/src/completion.rs:150-219 | the name exists exactly when length, coverage, digest and seal all held; a digest that contradicts the file leaves every disk state as found; a failure names the first check, in order, that did not hold, with its figures |
| `Naming.FinishDownload` | crates/downpour-engine/src/storage_sink.rs:66-102 | nothing is named while work is staged or while the digest contradicts the file, and the journal is retired only once the name exists; a failure names the first check that did not hold |
| `Naming.RunLeavesGap` | crates/downpour-engine/src/writer_service.rs:329-364 | over any run, a writer that failed leaves some byte incomplete for good |
| `Naming.NamedOnlyWhenVerified` | crates/downpour-storage/src/completion.rs:150-250 | whenever the name exists the file is the accepted bytes at every offset, behind a durable contiguous last seal |
| `Naming.NamedAfterAnyRun` | crates/downpour-engine/src/storage_sink.rs:256-289 | the same after any commands and any failures |
| `Naming.SealedFolds` | crates/downpour-storage/src/journal/state.rs:60-131 | a sealed journal folds to the same bytes and says it is sealed |
| `Naming.CompletionCrashReplays` | crates/downpour-storage/src/completion.rs:222-250 | a crash during sealing leaves a journal that folds, with the seal exactly if all of it survived |
| `Naming.CompletionCrashRecovers` | crates/downpour-storage/src/completion.rs:222-250 | recovery after a crash during sealing finds every complete byte with its accepted value, and the seal exactly if all of it survived |
| `Naming.RenameCrashRecovers` | crates/downpour-storage/src/completion.rs:222-250 | after a crash that follows the rename the verified bytes are whole under exactly one name and a remaining journal is whole and sealed; recovery completes every byte if the rename was undone and the journal is there, and reports a missing part file exactly when the rename survived |
| `Desk.FlushView` | crates/downpour-engine/src/writer_service.rs:406-410 | a healthy flush goes through, completes exactly the staged bytes, uses no further sequence number and leaves the actor able |
| `Desk.AllocateView` | crates/downpour-engine/src/writer_service.rs:366-373 | a healthy allocation is the allocator decision on the flushed map, and the actor is ready for the next command |
| `Desk.AbandonView` | crates/downpour-engine/src/writer_service.rs:418-422 | a healthy abandon commits what was staged, releases the rest and counts it, and the actor is ready for the next command |
| `Desk.WriteView` | crates/downpour-engine/src/writer_service.rs:375-404 | a healthy write into held bytes is accepted whole, takes one sequence number, and the actor is ready for the next command |
| `Desk.CommitView` | crates/downpour-engine/src/writer_service.rs:406-410 | a flush command commits exactly the staged bytes, and the actor is ready for the next command |
| `Desk.ShutdownView` | crates/downpour-engine/src/writer_service.rs:430-433 | a shutdown commits exactly the staged bytes, answers with the map after that, and stops the actor |
| `Desk.TickView` | crates/downpour-engine/src/writer_service.rs:329-364 | the periodic flush commits exactly when the batch is due, and the actor is ready for the next command |
| `Simulation.OpSimulated` | crates/downpour-engine/src/writer_service.rs:366-433 | one scheduler operation is one command of the actor; a fence leaves the actor with exactly the resulting cells |
| `Simulation.RunSimulated` | crates/downpour-engine/src/writer_service.rs:329-364 | every permitted sequence of scheduler operations is a run of the actor with exactly those commands, ending in the same cells, with the bytes of the content accepted |
| `Simulation.WritesBounded` | crates/downpour-storage/src/writer.rs:344-415 | the missing bytes bound the sequence numbers a run can need |
| `WorkerPool.CompletedInsideCounts` | crates/downpour-engine/src/worker_pool.rs:571-586 | the interval sum is the number of complete bytes in the range |
| `WorkerPool.ActiveGrantsLive` | crates/downpour-engine/src/worker_pool.rs:557-569 | one task per worker that still holds bytes, over exactly those bytes, disjoint, and none only if nobody holds any |
| `WorkerPool.AllocatedTakes` | crates/downpour-engine/src/worker_pool.rs:313-345 | the pool is never refused an allocation; a grant is free bytes or the right end of one worker stretch |
| `WorkerPool.WroteSound` | crates/downpour-engine/src/worker_pool.rs:609-655 | a worker write keeps grants disjoint, stretches whole and every byte accounted for |
| `WorkerPool.FinishedSound` | crates/downpour-engine/src/worker_pool.rs:358-372 | a finished worker becomes idle holding nothing, and its bytes move to its report |
| `WorkerPool.FailedSound` | crates/downpour-engine/src/worker_pool.rs:373-406 | a transient failure commits the accepted prefix, releases only the rest and keeps every byte accounted for |
| `WorkerPool.CancelledSound` | crates/downpour-engine/src/worker_pool.rs:407-413 | a cancelled worker keeps what it wrote and what it holds |
| `WorkerPool.DrainedSound` | crates/downpour-engine/src/worker_pool.rs:290-302 | draining reports exactly the bytes the stopped tasks wrote: for every worker, its reports grow by what its own tasks wrote, and none is empty |
| `WorkerPool.ParkedReportsCredit` | crates/downpour-engine/src/worker_pool.rs:294-301 | the reports of one drain that name a worker add up to what its own stopped tasks wrote |
| `WorkerCredit.WroteCredit` | crates/downpour-engine/src/worker_pool.rs:609-655 | a write adds its length to the account of its writer and to no other |
| `WorkerCredit.FinishedCredit` | crates/downpour-engine/src/worker_pool.rs:358-372 | a finished task is reported under its own worker, in full |
| `WorkerCredit.FailedCredit` | crates/downpour-engine/src/worker_pool.rs:373-406 | a failed task keeps its bytes on the account of its worker |
| `WorkerCredit.CancelledCredit` | crates/downpour-engine/src/worker_pool.rs:407-413 | so does a cancelled one |
| `WorkerCredit.ScheduledCredit` | crates/downpour-engine/src/worker_pool.rs:304-349 | new tasks start with nothing written, whoever gets them |
| `WorkerPool.ScheduledSound` | crates/downpour-engine/src/worker_pool.rs:304-349 | a drained pool that is not done always starts a task, and no scheduling exit is taken |
| `PoolLoop.Admit` | crates/downpour-engine/src/worker_pool.rs:247-263 | the loop makes the grants and the requests of the opening, or stops short where storage is lost |
| `PoolRuns.ReactSound` | crates/downpour-engine/src/worker_pool.rs:351-423 | every event, in any order, keeps the pool sound and undoes nothing done |
| `PoolRuns.ReactProgress` | crates/downpour-engine/src/worker_pool.rs:289-423 | every event that does not end the run uses up patience, a task or one of five retries |
| `PoolRuns.LogNext` | crates/downpour-engine/src/worker_pool.rs:373-418 | whether an event ends the run depends only on the events so far, as the retry budget of five says |
| `PoolRuns.OfferedWell` | crates/downpour-engine/src/worker_pool.rs:247-263 | the opening: grants disjoint, one for each worker, none exactly when every byte is done, and every request permitted |
| `PoolRuns.StaffedSound` | crates/downpour-engine/src/worker_pool.rs:289-349 | finding work keeps the pool sound, and leaves somebody at work unless every byte is done |
| `PoolRuns.PlayedSound` | crates/downpour-engine/src/worker_pool.rs:289-423 | for every list of events that can happen, the pool is sound, has undone nothing, and has asked only what was permitted when it was asked |
| `PoolRuns.ReactCredit` | crates/downpour-engine/src/worker_pool.rs:351-423 | every event adds to the account of each worker exactly what it asks to store for that worker |
| `PoolRuns.PlayedCredit` | crates/downpour-engine/src/worker_pool.rs:289-423 | for every list of events that can happen, the account of each worker has grown by exactly what its own writes stored |
| `PoolRuns.SortReportsStable` | crates/downpour-engine/src/worker_pool.rs:435 | sorting neither loses, adds nor reorders the reports of one worker |
| `PoolRuns.FinishedFairly` | crates/downpour-engine/src/worker_pool.rs:424-440 | when nothing is missing, the reports that name a worker add up to what its own writes stored, for every worker, and none is empty |
| `PoolRuns.FinishedWell` | crates/downpour-engine/src/worker_pool.rs:424-440 | every list of events that ends with nothing missing: every byte done, sorted reports that account for the bytes fetched, in total and worker by worker, no fatal event |
| `PoolRuns.FailedWell` | crates/downpour-engine/src/worker_pool.rs:373-423 | every list of events that ends with a fatal one: the error is that event and names the worker whose task failed, every worker is released and nothing stays in progress |
| `PoolPolicy.PlayedOrderly` | crates/downpour-engine/src/worker_pool.rs:358-406 | in every run, whenever some worker is idle every running task has been told to stop |
| `PoolPolicy.Nominates` | crates/downpour-engine/src/worker_pool.rs:358-406 | the next to be given work is the last worker to fail, or else the first to finish |
| `PoolPolicy.StaffedStarts` | crates/downpour-engine/src/worker_pool.rs:304-349 | with every task gone and something missing, the idle worker starts alone on free bytes or the right end of one stretch and nothing else moves, or nothing is free and every held byte is in a fresh task of its holder |
| `PoolPolicy.NothingExcluded` | crates/downpour-engine/src/worker_pool.rs:609-655 | the runs covered leave nothing out: blocks of any size up to 256 KiB inside the grant, any failure or panic at any time, and lost storage |
| `PoolLoop.ReclaimAfterFailure` | crates/downpour-engine/src/worker_pool.rs:502-516 | every worker is released in turn, after which no byte is in progress, or as many as storage allowed; nothing accepted is lost |
| `PoolLoop.Reassign` | crates/downpour-engine/src/worker_pool.rs:289-349 | with every task gone the batch is committed; then all is done, storage was lost, or some task starts with strictly less left to do; no worker loses or gains a byte of its account; the requests are those of the specification or a prefix of them |
| `PoolLoop.Drive` | crates/downpour-engine/src/worker_pool.rs:289-440 | the event loop ends, with exactly the requests and the verdict that the events it returns determine; on success every worker is credited with what its own writes stored; when storage is lost, the requests are a prefix of those |
| `PoolLoop.ExecuteSegmented` | crates/downpour-engine/src/worker_pool.rs:232-440 | the requests, cells and verdict are those that the returned events determine; success means every byte is done and the sorted reports add up to the bytes this run fetched, and for each worker to the bytes its own requests stored; failure leaves no byte in progress unless storage was lost, and is the fault of the last event; incomplete coverage is reported exactly when there was nothing to do |
| `PoolVersions.CheckedPart` | crates/downpour-http/src/h1h2.rs:486-524 | an answer that passes the header check is the part asked for, or its beginning, of a version as long as its header says |
| `PoolVersions.EveryByteServed` | crates/downpour-engine/src/worker_pool.rs:609-655 | for every run and every mix of answers, each byte the run filled is that byte of the version that answered the task that wrote it |
| `PoolVersions.MarksStay` | crates/downpour-engine/src/worker_pool.rs:609-655 | no byte is written by two tasks: what a write put stays that write for the rest of the run |
| `PoolVersions.OneVersionIff` | crates/downpour-engine/src/worker_pool.rs:609-655 | answers from one version give that version; where versions differ in every byte, the file is one version only then |
| `PoolVersions.LengthsIff` | crates/downpour-engine/src/worker_pool.rs:634-648 | every byte is from a version as long as the file exactly when that holds for the tasks cut short after writing; only tasks that finish are checked for it |
| `PoolExamples.MixedVersions` | crates/downpour-engine/src/worker_pool.rs:609-655 | a concrete successful run of two workers whose file is neither of the two versions served |
| `PoolExamples.OtherLength` | crates/downpour-engine/src/worker_pool.rs:634-648 | a concrete successful run that keeps a byte of a version of another length |
| `Sink.DurablePrefixEnd` | crates/downpour-engine/src/storage_sink.rs:323-332 | the answer is the first byte that is not complete |
| `Sink.RangeSink.Accept` | crates/downpour-http/src/sink.rs:89-107 | bytes are appended whole at the cursor or refused without writing, and the window is never exceeded |
| `Sink.RangeSink.Rebase` | crates/downpour-http/src/sink.rs:138-142 | the window moves and the target does not |
| `Sink.WriteReaches` | crates/downpour-engine/src/storage_sink.rs:104-121 | a write at the end of the accepted bytes is accepted and reaches exactly its own end |
| `Sink.StoredLeads` | crates/downpour-engine/src/storage_sink.rs:104-135 | what a sink does to its target is permitted of the worker it writes for |
| `Sink.PutsKept` | crates/downpour-engine/src/storage_sink.rs:104-121 | no byte is written twice: every write a sink made is in the part file at the end |
| `SingleStream.FetchRange` | crates/downpour-http/src/h1h2.rs:420-560 | what is appended, write by write, is consecutive bytes of one version, and under a condition only of the version the validator names; an answer whose Content-Range begins elsewhere is refused before its body is touched |
| `SingleStream.CheckedStart` | crates/downpour-http/src/h1h2.rs:486-524 | a response that passes the header check begins exactly where it was asked to, and answers a conditional request with 206 |
| `SingleStream.ResumedSame` | crates/downpour-engine/src/download.rs:289-342 | a conditional request that delivers anything is served from the version of the bytes already held |
| `SingleStream.PrefixIsHeld` | crates/downpour-engine/src/download.rs:318-335 | a resume starts exactly at the number of bytes accepted so far |
| `SingleStream.Run` | crates/downpour-engine/src/download.rs:380-445 | the sink makes the writes of this fetch, the bytes served from its start to its end, and then one commit, before the result is looked at; a whole file is what the sink has written, and from one version |
| `SingleStream.Resume` | crates/downpour-engine/src/download.rs:289-342 | a resume continues the held bytes or stops; it never restarts over them |
| `SingleStream.AttemptOnce` | crates/downpour-engine/src/download.rs:194-286 | an attempt continues the session if there is one and starts over otherwise; starting over fails on files that were left behind |
| `SingleStream.KeepSession` | crates/downpour-engine/src/download.rs:140-180 | a session is kept exactly if it has durable bytes and a validator usable for If-Range |
| `SingleStream.RetriesExactly` | crates/downpour-engine/src/download.rs:481-503 | what is retried, and how often: broken connections, timeouts, short bodies and the statuses 408, 429 and 500 to 599, five times |
| `SingleStream.Download` | crates/downpour-engine/src/download.rs:110-185 | at most six attempts, fewer only where a retry cannot help; each retry continues the attempt before it exactly if that left durable bytes and a validator, and otherwise starts over; every resume contiguous; each fetch recorded with the writes it made; a completed file is exactly what the writes since the last start put into a fresh part file, all of it served from one version, the one returned |
| `Delivery.OpsDelivered` | crates/downpour-engine/src/writer_service.rs:329-364 | permitted operations over a ready actor are a run of it; if they end with every byte done, its map is complete and every byte accepted |
| `Delivery.ExecuteOnActor` | crates/downpour-engine/src/worker_pool.rs:232-440 | the pool over a ready actor: the requests are those its events determine, and the run of the actor serves exactly them; success ends it with every byte complete and accepted and every worker credited with what its own writes stored, failure with nothing granted unless storage was lost |
| `Delivery.SegmentedFile` | crates/downpour-engine/src/worker_pool.rs:232-440 | every successful segmented download, whichever versions answered its tasks: the run of the actor that serves its requests ends whole, each fetched byte accepted as that byte of the version that answered its task |
| `Delivery.WholeSurvives` | crates/downpour-storage/src/recovery.rs:219-369 | after a run that ended whole, a crash in any later disk state leaves recovery every byte complete, each with the value accepted for it |
| `Delivery.NewReady` | crates/downpour-storage/src/writer.rs:68-117 | a new journal over a map with nothing complete is a ready actor |
| `Delivery.NextReady` | crates/downpour-storage/src/recovery.rs:219-369 | what recovery hands over after a crash is a ready actor with nothing granted, if the journal has numbers left |
| `Delivery.StreamDelivered` | crates/downpour-engine/src/storage_sink.rs:104-135 | the writes of a completed single stream are a run of an actor, write for write, ending with every byte complete and accepted as the file has it |
| `Delivery.DownloadOnActor` | crates/downpour-engine/src/download.rs:110-185 | the run of the actor serves exactly the writes and commits the sink made since the last start; after a success it ends with the whole file complete, byte for byte, from one version |
| `ContentRange.PrintParse` | crates/downpour-types/src/content_range.rs:212-312 | parsing the printed form of any well-formed value gives the value |
| `ContentRange.ParsedWellFormed` | crates/downpour-types/src/content_range.rs:231-311 | a parsed range has first at most last, last below u64::MAX and below the stated total |
| `RangeGrammar.ParseExact` | crates/downpour-types/src/content_range.rs:231-311 | a header is accepted with a value exactly if it is a spelling of it: white space around, the unit in any case, one space or more, digits only, and a well-formed value |
| `RangeGrammar.Judged` | crates/downpour-types/src/content_range.rs:231-311 | a spelling with any numbers: which make a range, and which error, with its figures, the others get |
| `RangeGrammar.EncodedExact` | crates/downpour-types/src/remote.rs:132-183 | a body is taken as it is exactly if no encoding is named, or identity in any case, with white space around |
| `ContentRange.Len` | crates/downpour-types/src/content_range.rs:103-108 | the length of a well-formed range is positive and fits a u64 |
| `ContentRange.ConsistentMeans` | crates/downpour-types/src/content_range.rs:147-209 | a response is consistent exactly when it begins with the first byte asked for and encloses only bytes asked for, and all of them for a suffix |
| `ContentRange.UnstatedTotal` | crates/downpour-types/src/content_range.rs:147-209 | without a stated total a suffix is never accepted and the start must still match |
| `ContentRange.MatchesGrantExactly` | crates/downpour-engine/src/worker_pool.rs:657-672 | the pool accepts a response exactly when it is the whole grant of a representation of the right length |
| `ContentRange.ProvenMeans` | crates/downpour-types/src/remote.rs:132-183 | a range is proven exactly by an unencoded 206 that names a part of known total length, as long as its body, beginning with the first byte asked for and enclosing only bytes asked for, and all of them for a suffix |
| `ContentRange.ParseDigits` | crates/downpour-types/src/content_range.rs:316-323 | parsing the decimal form of any u64 gives the number |

## Left out

- The metadata database and the encoding of its rows: a checkpoint row is missing, undecodable or a list of ranges, and only the size of its encoding is modelled.
- Opening an existing journal for appending: the source has no such operation yet, so `CrashSafety` starts each new session with a new writer over the repaired files and the sequence number recovery reports.
- I/O errors while recovery reads its files: they abort the recovery without a verdict.
- Platform allocation in the part file: the file is a byte sequence whose length only grows.
- HTTP transport, probing, redirects, and content sniffing: the server is arbitrary within the stated assumptions.
- The single-stream fallback of the pool and its choice of plan: they would only add one-branch checks.
- Removing the artifacts of a discarded attempt: it is taken to succeed.
- IPC, daemon, CLI, file names, the digest and base64 functions themselves, clocks, delays and jitter.
- Recovery.ReconcileDownload: does not touch the cached checkpoint; `CheckpointCache` adds the comparison, the row and its one error to the result, so here and in `CrashSafety` a recovery succeeds also where the source fails on more than a million ranges.
- PoolLoop.Drive: a storage failure is one event that ends the run with the cells of that moment; which call failed, and what the call had already done to the disk, is left to `Actor` and `CrashSafety`.
- PoolLoop.ExecuteSegmented: starts after the plan is chosen and the writer's identity is checked, which are one-branch checks; a write and the flush it may trigger are two steps here, the second free to happen at any time, so the eight-mebibyte threshold is not visible in the pool.
- SingleStream.FetchRange: does not read `Content-Length` or sniff the first bytes; both can only end the response early, and a response may end anywhere.
- SingleStream.Run: verification before the rename either succeeds or ends the download; what it guarantees is stated by `Naming.NamedAfterAnyRun`.
- SingleStream.Download: leaves out the download whose length the server does not state, for which the code claims no coverage and no resume.
