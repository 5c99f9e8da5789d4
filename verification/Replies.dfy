/**
 What the actor's replies promise, whatever fails.

 A command that goes ahead behind a flush answers only once the batch is committed, so its reply
 speaks of a settled map. A receipt names a block that is on disk, in the journal and in the map.
 */
module Replies {
  import opened Base
  import opened Ownership
  import A = Allocator
  import opened JournalFormat
  import opened Replay
  import opened Storage
  import opened Writer
  import opened CommitOrder
  import opened Actor

  /** Nothing is waiting, and the complete bytes are exactly those accepted so far. */
  ghost predicate Settled(a: Actor, acc: History)
  {
    && a.writer.staged == [] && |acc| == |a.owners|
    && forall b :: 0 <= b < |acc| ==> (acc[b].Some? <==> a.owners[b] == Complete)
  }

  predicate Control(c: Command) { c.Allocate? || c.FlushAll? || c.Abandon? || c.Shutdown? }

  /** The writer did not get the batch onto disk. */
  predicate Unflushed(r: Reply) { r.Refused? && r.error.WriterFailed? }

  lemma HealthySettled(crc: Checksum, hash: Hash, h: FileHeader, a: Actor, acc: History, recs: seq<JournalRecord>)
    requires Healthy(crc, hash, h, a.writer, a.owners, acc, recs) && a.writer.staged == []
    ensures Settled(a, acc)
  {
    hide Durable, StagedOk, CompleteIsCovered;
  }

  /** A control command either fails to flush, and moves no byte, or leaves a settled map behind. */
  lemma ControlSettles(crc: Checksum, hash: Hash, h: FileHeader, a: Actor, c: Command, faults: Faults, acc: History,
                       recs: seq<JournalRecord>, floor: nat)
    requires ActorSound(crc, hash, h, a, acc, recs, floor) && !a.stopped && Control(c)
    ensures Fitting(a)
    ensures var t := Step(crc, hash, a, c, faults);
            if Unflushed(t.reply) then t.actor.owners == a.owners else Settled(t.actor, acc)
  {
    hide Sound, Healthy, Broken, Flush, A.Decide, Advances;
    SoundFits(crc, hash, h, a, acc, recs, floor);
    var o := Flush(crc, a.writer, a.owners, faults.flush);
    FlushLength(crc, a.writer, a.owners, faults.flush);
    UnflushedKeeps(crc, a.writer, a.owners, faults.flush);
    if !a.writer.poisoned {
      var recs', _ := FenceSound(crc, hash, h, a, acc, recs, faults.flush);
      if o.result.Ok? {
        HealthySettled(crc, hash, h, After(a, o), acc, recs');
        DecideKeepsComplete(o.owners, if c.Allocate? then c.worker else 0, a.minSplit);
      }
    }
  }

  lemma UnflushedKeeps(crc: Checksum, w: Writer, m: Owners, fault: FlushFault)
    requires |m| <= U64_MAX
    ensures Flush(crc, w, m, fault).result.Err? ==> Flush(crc, w, m, fault).owners == m
    ensures w.poisoned ==> Flush(crc, w, m, fault).result.Err?
  {
    hide CommitBatch, CompleteAll;
  }

  /**
   Shutting down stops the actor. A snapshot in reply shows every accepted byte complete, with nothing
   left waiting; without one the batch could not be flushed, and the map is as it was.
   */
  lemma ShutdownCommits(crc: Checksum, hash: Hash, h: FileHeader, a: Actor, faults: Faults, acc: History,
                        recs: seq<JournalRecord>, floor: nat)
    requires ActorSound(crc, hash, h, a, acc, recs, floor) && !a.stopped
    ensures Fitting(a) && |acc| == |a.owners|
    ensures var t := Step(crc, hash, a, Shutdown, faults);
            && t.actor.stopped && (t.reply.Snapshotted? || Unflushed(t.reply))
            && (t.reply.Snapshotted? ==>
                  && t.actor.writer.staged == [] && t.reply.owners == t.actor.owners && |t.reply.owners| == |acc|
                  && forall b :: 0 <= b < |acc| ==> t.reply.owners[b] == if acc[b].Some? then Complete else a.owners[b])
            && (Unflushed(t.reply) ==> t.actor.owners == a.owners)
  {
    hide Sound, Flush, Settled;
    SoundFits(crc, hash, h, a, acc, recs, floor);
    ControlSettles(crc, hash, h, a, Shutdown, faults, acc, recs, floor);
    ShutdownMap(crc, hash, h, a, faults, acc, recs, floor);
  }

  /** The map of a snapshot differs from the one before only in what was waiting. */
  lemma ShutdownMap(crc: Checksum, hash: Hash, h: FileHeader, a: Actor, faults: Faults, acc: History,
                    recs: seq<JournalRecord>, floor: nat)
    requires ActorSound(crc, hash, h, a, acc, recs, floor) && !a.stopped && Fitting(a) && |acc| == |a.owners|
    requires !Unflushed(Step(crc, hash, a, Shutdown, faults).reply)
             ==> Settled(Step(crc, hash, a, Shutdown, faults).actor, acc)
    ensures var t := Step(crc, hash, a, Shutdown, faults);
            t.reply.Snapshotted? ==>
              && t.actor.writer.staged == [] && |t.reply.owners| == |acc|
              && forall b :: 0 <= b < |acc| ==> t.reply.owners[b] == if acc[b].Some? then Complete else a.owners[b]
  {
    hide Sound, Flush, Healthy, Broken;
    SoundFits(crc, hash, h, a, acc, recs, floor);
    UnflushedKeeps(crc, a.writer, a.owners, faults.flush);
    FlushLength(crc, a.writer, a.owners, faults.flush);
    if !a.writer.poisoned {
      FlushOwners(crc, hash, h, a.writer, a.owners, acc, recs, faults.flush);
    }
  }

  /** The map once everything accepted is complete. */
  ghost function Flat(m: Owners, acc: History): (r: Owners)
    requires |m| == |acc|
    ensures |r| == |m| && forall b :: 0 <= b < |m| ==> r[b] == if acc[b].Some? then Complete else m[b]
  {
    seq(|m|, b requires 0 <= b < |m| => if acc[b].Some? then Complete else m[b])
  }

  lemma FlushedFlat(crc: Checksum, hash: Hash, h: FileHeader, a: Actor, acc: History, recs: seq<JournalRecord>,
                    fault: FlushFault)
    requires Fitting(a) && Healthy(crc, hash, h, a.writer, a.owners, acc, recs) && |acc| == |a.owners|
    ensures var o := Flush(crc, a.writer, a.owners, fault); o.result.Ok? ==> o.owners == Flat(a.owners, acc)
  {
    hide Healthy, Broken, Flush;
    var o := Flush(crc, a.writer, a.owners, fault);
    FenceSettles(crc, hash, h, a, acc, recs, fault);
    FlushOwners(crc, hash, h, a.writer, a.owners, acc, recs, fault);
    FlushLength(crc, a.writer, a.owners, fault);
  }

  /**
   What each control command does and answers, whatever fails, unless the batch could not be flushed.
   Everything accepted is complete first; the receipts are those of the flush.
   */
  lemma ControlAnswers(crc: Checksum, hash: Hash, h: FileHeader, a: Actor, worker: U64, faults: Faults, acc: History,
                       recs: seq<JournalRecord>, floor: nat)
    requires ActorSound(crc, hash, h, a, acc, recs, floor) && !a.stopped
    ensures Fitting(a) && |acc| == |a.owners|
    ensures var o, flat := Flush(crc, a.writer, a.owners, faults.flush), Flat(a.owners, acc);
            if o.result.Err? then
              forall c :: Control(c) ==>
                Step(crc, hash, a, c, faults)
                == Turn(a.(writer := o.writer, stopped := c == Shutdown), Refused(WriterFailed(o.result.error)))
            else
              var done, durable := a.(writer := o.writer, owners := flat), o.result.value;
              var d := A.Decide(flat, worker, a.minSplit);
              && Step(crc, hash, a, FlushAll, faults) == Turn(done, Flushed(durable))
              && Step(crc, hash, a, Shutdown, faults) == Turn(done.(stopped := true), Snapshotted(flat))
              && Step(crc, hash, a, Abandon(worker), faults)
                 == Turn(done.(owners := Release(flat, worker)), Abandoned(Count(flat, InProgress(worker)), durable))
              && Step(crc, hash, a, Allocate(worker), faults)
                 == if d.result.Ok? then Turn(done.(owners := d.owners), Allocated(d.result.value, durable))
                    else Turn(done, Refused(AllocatorFailed(d.result.error)))
    ensures Step(crc, hash, a, Snapshot, faults) == Turn(a, Snapshotted(a.owners))
  {
    hide Sound, Healthy, Broken, Flush, A.Decide, Advances, Release, Count, Flat;
    SoundFits(crc, hash, h, a, acc, recs, floor);
    UnflushedKeeps(crc, a.writer, a.owners, faults.flush);
    if !a.writer.poisoned {
      FlushedFlat(crc, hash, h, a, acc, recs, faults.flush);
    }
  }

  // ----- writes -----

  /** The range is not empty and every byte of it is granted to the worker. */
  ghost predicate Granted(m: Owners, worker: U64, lo: nat, hi: nat)
  {
    lo < hi <= |m| && forall b :: lo <= b < hi ==> m[b] == InProgress(worker)
  }

  /** The first block of the batch that shares a byte with the range. */
  ghost predicate InTheWay(staged: seq<StagedBlock>, i: nat, lo: nat, hi: nat)
  {
    && i < |staged| && staged[i].lo < hi && lo < staged[i].hi
    && forall j :: 0 <= j < i ==> !(staged[j].lo < hi && lo < staged[j].hi)
  }

  lemma {:induction false} FirstInTheWay(staged: seq<StagedBlock>, lo: nat, hi: nat, i: nat)
    requires InTheWay(staged, i, lo, hi)
    ensures FirstOverlap(staged, lo, hi) == Some(staged[i])
  {
    if i > 0 {
      assert !Overlaps(staged[0], lo, hi);
      assert forall j :: 0 <= j < |staged[1..]| ==> staged[1..][j] == staged[j + 1];
      FirstInTheWay(staged[1..], lo, hi, i - 1);
    }
  }

  lemma {:induction false} NothingInTheWay(staged: seq<StagedBlock>, lo: nat, hi: nat)
    ensures FirstOverlap(staged, lo, hi).Some? ==> exists i: nat :: InTheWay(staged, i, lo, hi)
  {
    if staged != [] && !Overlaps(staged[0], lo, hi) {
      NothingInTheWay(staged[1..], lo, hi);
      if i: nat :| InTheWay(staged[1..], i, lo, hi) {
        assert staged[1..][i] == staged[i + 1];
        forall j | 0 <= j < i + 1 ensures !(staged[j].lo < hi && lo < staged[j].hi) {
          assert j > 0 ==> staged[1..][j - 1] == staged[j];
        }
        assert InTheWay(staged, i + 1, lo, hi);
      }
    } else if staged != [] {
      assert InTheWay(staged, 0, lo, hi);
    }
  }

  /** A write that is refused before any disk operation changes nothing, and the reply says why, first cause first. */
  lemma WriteRefusals(crc: Checksum, hash: Hash, a: Actor, worker: U64, offset: U64, bytes: seq<Byte>, now: nat,
                      faults: Faults)
    requires Fitting(a) && !a.stopped && |a.owners| == a.writer.totalLength
    ensures var t, hi, w := Step(crc, hash, a, Write(worker, offset, bytes, now), faults), offset + |bytes|, a.writer;
            && (StageGuard(w, a.owners, worker, offset, bytes).Ok? <==>
                && Granted(a.owners, worker, offset, hi) && !w.poisoned && |bytes| <= 4_294_967_295
                && (forall i: nat :: !InTheWay(w.staged, i, offset, hi))
                && w.stagedBytes + |bytes| <= 18_446_744_073_709_551_615)
            && (StageGuard(w, a.owners, worker, offset, bytes).Err? ==> t.actor == a)
            && (hi > 18_446_744_073_709_551_615 ==> t.reply == Refused(CursorOverflow))
            && (hi <= 18_446_744_073_709_551_615 && !Granted(a.owners, worker, offset, hi) ==>
                  t.reply == Refused(WriterFailed(Rejected(if |bytes| == 0 || hi > |a.owners|
                                                           then InvalidRange(offset, hi, |a.owners|)
                                                           else RangeNotOwned(offset, hi, worker)))))
            && (Granted(a.owners, worker, offset, hi) ==>
                  && (w.poisoned ==> t.reply == Refused(WriterFailed(Poisoned)))
                  && (!w.poisoned && |bytes| > 4_294_967_295 ==>
                        t.reply == Refused(WriterFailed(BlockTooLarge(|bytes|))))
                  && (!w.poisoned && |bytes| <= 4_294_967_295 ==>
                        forall i: nat :: InTheWay(w.staged, i, offset, hi) ==>
                          t.reply == Refused(WriterFailed(OverlappingStaged(w.staged[i], offset, hi)))))
  {
    var hi := offset + |bytes|;
    NothingInTheWay(a.writer.staged, offset, hi);
    forall i: nat | InTheWay(a.writer.staged, i, offset, hi)
      ensures FirstOverlap(a.writer.staged, offset, hi) == Some(a.writer.staged[i])
    {
      FirstInTheWay(a.writer.staged, offset, hi, i);
    }
    hide FirstOverlap, Flush, Accept, WriteData, InTheWay;
  }

  /**
   A write that fails on disk. Out of space: what was accepted before is committed, the reply names the
   offset, and the writer goes on. Anything else: the writer is poisoned and no byte moves.
   */
  lemma FailedWrite(crc: Checksum, hash: Hash, h: FileHeader, a: Actor, worker: U64, offset: U64, bytes: seq<Byte>,
                    now: nat, faults: Faults, acc: History, recs: seq<JournalRecord>, floor: nat)
    requires ActorSound(crc, hash, h, a, acc, recs, floor) && !a.stopped && |a.owners| <= U64_MAX
    requires StageGuard(a.writer, a.owners, worker, offset, bytes).Ok? && faults.write != WriteOk
    ensures Fitting(a)
    ensures var t := Step(crc, hash, a, Write(worker, offset, bytes, now), faults);
            && (faults.write.WriteBroken? ==>
                  && t.reply == Refused(WriterFailed(Io)) && t.actor.writer.poisoned && t.actor.owners == a.owners
                  && t.actor.writer.staged == a.writer.staged)
            && (faults.write.WriteRefused? ==>
                  && t.reply == Refused(WriterFailed(NoSpace(offset))) && t.actor.writer.diskFullAt == Some(offset)
                  && (t.actor.owners == a.owners || Settled(t.actor, acc))
                  && (faults.flush == FlushOk && a.writer.nextSequence + |a.writer.staged| <= U64_MAX ==>
                        !t.actor.writer.poisoned && Settled(t.actor, acc)))
  {
    hide Sound, Healthy, Broken, Flush, WriteData, Settled;
    SoundFits(crc, hash, h, a, acc, recs, floor);
    GuardMeansWritable(a.writer, a.owners, worker, offset, bytes);
    GuardAlive(a.writer, a.owners, worker, offset, bytes);
    if faults.write.WriteRefused? {
      RefusedSettles(crc, hash, h, a, worker, offset,
                     Landing(a.writer.store, offset, faults.write.landed, |bytes|), faults.flush, acc, recs);
    }
  }

  lemma GuardAlive(w: Writer, m: Owners, worker: U64, offset: U64, bytes: seq<Byte>)
    requires |m| <= U64_MAX && StageGuard(w, m, worker, offset, bytes).Ok?
    ensures !w.poisoned && CompleteRange(m, offset, offset + |bytes|, worker).Ok?
  {
  }

  lemma FlushGoes(crc: Checksum, hash: Hash, h: FileHeader, w: Writer, m: Owners, acc: History,
                  recs: seq<JournalRecord>)
    requires Healthy(crc, hash, h, w, m, acc, recs) && |m| <= U64_MAX && w.nextSequence + |w.staged| <= U64_MAX
    ensures Flush(crc, w, m, FlushOk).result.Ok? && !Flush(crc, w, m, FlushOk).writer.poisoned
  {
    hide Durable, CompleteIsCovered, CompleteAll, AppendImages, Appended, StagedOk, AcceptedOnce;
    HealthyParts(crc, hash, h, w, m, acc, recs);
    CompleteAllStaged(hash, w.store, m, acc, w.staged);
  }

  lemma FenceSettles(crc: Checksum, hash: Hash, h: FileHeader, a: Actor, acc: History, recs: seq<JournalRecord>,
                     fault: FlushFault)
    requires Fitting(a) && Healthy(crc, hash, h, a.writer, a.owners, acc, recs)
    ensures var o := Flush(crc, a.writer, a.owners, fault);
            && (if o.result.Ok? then Settled(After(a, o), acc) else o.owners == a.owners)
            && (fault == FlushOk && a.writer.nextSequence + |a.writer.staged| <= U64_MAX ==>
                  o.result.Ok? && !o.writer.poisoned)
  {
    hide Flush, Healthy, Broken, Advances;
    var o := Flush(crc, a.writer, a.owners, fault);
    UnflushedKeeps(crc, a.writer, a.owners, fault);
    var recs', _ := FenceSound(crc, hash, h, a, acc, recs, fault);
    if o.result.Ok? {
      HealthySettled(crc, hash, h, After(a, o), acc, recs');
    }
    if fault == FlushOk && a.writer.nextSequence + |a.writer.staged| <= U64_MAX {
      FlushGoes(crc, hash, h, a.writer, a.owners, acc, recs);
    }
  }

  lemma RefusedSettles(crc: Checksum, hash: Hash, h: FileHeader, a: Actor, worker: U64, offset: U64,
                       landed: seq<Byte>, fault: FlushFault, acc: History, recs: seq<JournalRecord>)
    requires Healthy(crc, hash, h, a.writer, a.owners, acc, recs) && Fitting(a)
    requires Writable(a.writer, a.owners, worker, offset, offset + |landed|) && |a.owners| == a.writer.totalLength
    ensures var w := On(a.writer, WriteData(a.writer.store, offset, landed));
            var o := Flush(crc, w, a.owners, fault);
            var next := After(a, Outcome(o.writer.(diskFullAt := Some(offset)), o.owners, o.result));
            && (next.owners == a.owners || Settled(next, acc))
            && (fault == FlushOk && a.writer.nextSequence + |a.writer.staged| <= U64_MAX ==>
                  !next.writer.poisoned && Settled(next, acc))
  {
    hide Flush, Healthy, WriteData;
    var w := On(a.writer, WriteData(a.writer.store, offset, landed));
    WriteAside(crc, hash, h, a.writer, a.owners, acc, recs, worker, offset, landed);
    FenceSettles(crc, hash, h, a.(writer := w), acc, recs, fault);
  }

  /** After a failure nothing more is done: commands are refused for that reason, and the snapshot still answers. */
  lemma PoisonedReplies(crc: Checksum, hash: Hash, a: Actor, c: Command, faults: Faults)
    requires Fitting(a) && !a.stopped && a.writer.poisoned
    ensures var t := Step(crc, hash, a, c, faults);
            && t.actor == a.(stopped := c == Shutdown)
            && (Control(c) || c.FlushDue? ==> t.reply == Refused(WriterFailed(Poisoned)))
            && (c == Snapshot ==> t.reply == Snapshotted(a.owners))
  {
    PoisonedStep(crc, hash, a, c, faults);
  }

  /** The block is recorded under its number, on disk, and complete now; it was its worker's before. */
  ghost predicate Receipt(hash: Hash, w: Writer, m: Owners, after: Writer, next: Owners, recs: seq<JournalRecord>,
                          d: DurableBlock)
    requires |m| == |next|
  {
    && d.lo < d.hi <= |m| && d.hi <= |after.store.data| && d.hi - d.lo <= U32_MAX
    && w.nextSequence <= d.sequence < |recs| && recs[d.sequence] == BlockComplete(d.lo, d.hi - d.lo, d.blake3)
    && d.blake3 == hash(after.store.data[d.lo..d.hi])
    && forall b :: d.lo <= b < d.hi ==> m[b] == InProgress(d.worker) && next[b] == Complete
  }

  /** What a flush that went through did to the writer. */
  lemma FlushShape(crc: Checksum, w: Writer, m: Owners, fault: FlushFault)
    requires |m| <= U64_MAX && Flush(crc, w, m, fault).result.Ok?
    ensures var o := Flush(crc, w, m, fault);
            && o.writer.store.data == w.store.data && w.nextSequence + |w.staged| <= U64_MAX
            && (w.staged == [] || fault != DataSyncFails)
            && o.result.value == Committed(w.staged, w.nextSequence)
            && o.writer.nextSequence == w.nextSequence + |w.staged|
            && (w.staged == [] ==> o.writer == w && o.owners == m)
            && (w.staged != [] ==> o.writer.durableBytes == Saturating(w.durableBytes + BytesOf(w.staged)))
  {
    hide CompleteAll, AppendImages, EncodeAll, BytesOf, TornAppend;
  }

  lemma StagedReceipt(hash: Hash, w: Writer, m: Owners, acc: History, after: Writer, next: Owners,
                      recs: seq<JournalRecord>, i: nat)
    requires |m| == |acc| == |next| <= |w.store.data| && after.store.data == w.store.data && i < |w.staged|
    requires StagedOk(hash, w.store, m, acc, w.staged) && w.nextSequence == |recs|
    requires |recs| + |w.staged| <= U64_MAX
    requires forall b :: 0 <= b < |acc| ==> (acc[b].Some? <==> next[b] == Complete)
    ensures Receipt(hash, w, m, after, next, recs + RecordsFor(w.staged), Committed(w.staged, |recs|)[i])
  {
    hide Encodable;
    assert BlockStaged(hash, w.store, m, acc, w.staged[i]);
    assert (recs + RecordsFor(w.staged))[|recs| + i] == RecordOf(w.staged[i]);
  }

  /**
   The receipts of a flush: one for each block that was waiting, in order and numbered from the next
   number on, each true of the disk, the journal and the map; and no byte becomes complete without one.
   */
  lemma FlushReceipts(crc: Checksum, hash: Hash, h: FileHeader, w: Writer, m: Owners, acc: History,
                      recs: seq<JournalRecord>, fault: FlushFault)
    requires Healthy(crc, hash, h, w, m, acc, recs)
    ensures |m| <= U64_MAX && |Flush(crc, w, m, fault).owners| == |m|
    ensures var o := Flush(crc, w, m, fault);
            o.result.Ok? ==>
              var recs' := recs + RecordsFor(w.staged);
              && Healthy(crc, hash, h, o.writer, o.owners, acc, recs') && |o.result.value| == |w.staged|
              && (forall i :: 0 <= i < |w.staged| ==>
                    && Receipt(hash, w, m, o.writer, o.owners, recs', o.result.value[i])
                    && o.result.value[i].sequence == w.nextSequence + i)
              && (forall b :: 0 <= b < |m| && o.owners[b] != m[b] ==>
                    o.owners[b] == Complete && exists i :: 0 <= i < |o.result.value| && Spans(o.result.value[i], b))
  {
    hide Durable, StagedOk, CompleteIsCovered, Flush, Broken, Receipt, Visited, AllEncodable, Encodable;
    HealthyParts(crc, hash, h, w, m, acc, recs);
    FlushLength(crc, w, m, fault);
    FlushSound(crc, hash, h, w, m, acc, recs, fault);
    FlushOwners(crc, hash, h, w, m, acc, recs, fault);
    var o := Flush(crc, w, m, fault);
    if o.result.Ok? {
      FlushShape(crc, w, m, fault);
      assert recs + RecordsFor([]) == recs;
      assert FlushRecords(w, recs, fault) == recs + RecordsFor(w.staged);
      forall i | 0 <= i < |w.staged|
        ensures Receipt(hash, w, m, o.writer, o.owners, recs + RecordsFor(w.staged), o.result.value[i])
      {
        StagedReceipt(hash, w, m, acc, o.writer, o.owners, recs, i);
      }
      forall b | 0 <= b < |m| && o.owners[b] != m[b]
        ensures exists i :: 0 <= i < |o.result.value| && Spans(o.result.value[i], b)
      {
        var i :| 0 <= i < |w.staged| && InBlock(w.staged[i], b);
        assert Spans(o.result.value[i], b);
      }
    }
  }

  predicate Spans(d: DurableBlock, b: nat) { d.lo <= b < d.hi }

  // ----- counting what became durable -----

  lemma {:induction false} CompletedBytes(m: Owners, staged: seq<StagedBlock>)
    requires |m| <= U64_MAX && CompleteAll(m, staged).Ok?
    requires forall i :: 0 <= i < |staged| ==> staged[i].lo < staged[i].hi <= |m|
    requires forall i :: 0 <= i < |staged| ==> AllAre(m, staged[i].lo, staged[i].hi, InProgress(staged[i].worker))
    requires forall i, j :: 0 <= i < j < |staged| ==> staged[i].hi <= staged[j].lo || staged[j].hi <= staged[i].lo
    ensures Count(CompleteAll(m, staged).value, Complete) == Count(m, Complete) + BytesOf(staged)
  {
    hide Count;
    if staged != [] {
      var n := |staged| - 1;
      CompletedBytes(m, staged[..n]);
      var before, b := CompleteAll(m, staged[..n]).value, staged[n];
      assert CompleteRange(before, b.lo, b.hi, b.worker).Ok?;
      PaintMovesCount(before, b.lo, b.hi, InProgress(b.worker), Complete, Complete);
    }
  }

  /** The running count grows by exactly the bytes that became complete, until it saturates. */
  lemma DurableCounted(crc: Checksum, hash: Hash, h: FileHeader, w: Writer, m: Owners, acc: History,
                       recs: seq<JournalRecord>, fault: FlushFault)
    requires Healthy(crc, hash, h, w, m, acc, recs) && Flush(crc, w, m, fault).result.Ok?
    ensures var o := Flush(crc, w, m, fault);
            o.writer.durableBytes
            == Min(w.durableBytes + (Count(o.owners, Complete) - Count(m, Complete)), U64_MAX)
  {
    hide Durable, CompleteIsCovered, AcceptedOnce, Count, BytesOf, CommitBatch, CompleteAll;
    HealthyParts(crc, hash, h, w, m, acc, recs);
    FlushShape(crc, w, m, fault);
    if w.staged != [] {
      forall i | 0 <= i < |w.staged|
        ensures w.staged[i].lo < w.staged[i].hi <= |m|
                && AllAre(m, w.staged[i].lo, w.staged[i].hi, InProgress(w.staged[i].worker))
      {
        assert BlockStaged(hash, w.store, m, acc, w.staged[i]);
      }
      CompletedBytes(m, w.staged);
    }
  }

  // ----- when the batch is committed -----

  /** The counters of a writer are those of its batch. */
  ghost predicate Tallied(w: Writer)
  {
    w.stagedBytes == BytesOf(w.staged) && (w.firstStagedAt.Some? <==> w.staged != [])
  }

  lemma BytesSnoc(staged: seq<StagedBlock>, b: StagedBlock)
    requires b.lo <= b.hi
    ensures BytesOf(staged + [b]) == BytesOf(staged) + (b.hi - b.lo)
  {
    assert (staged + [b])[..|staged|] == staged;
  }

  lemma AcceptTallied(hash: Hash, w: Writer, worker: U64, offset: U64, bytes: seq<Byte>, now: nat)
    requires Fits(w) && offset + |bytes| <= w.totalLength && |bytes| <= U32_MAX && w.stagedBytes + |bytes| <= U64_MAX
    requires Tallied(w)
    ensures Tallied(Accept(hash, w, worker, offset, bytes, now))
  {
    hide BytesOf;
    BytesSnoc(w.staged, StagedBlock(offset, offset + |bytes|, |bytes|, worker, hash(bytes)));
  }

  lemma FlushTallied(crc: Checksum, w: Writer, m: Owners, fault: FlushFault)
    requires |m| <= U64_MAX && Tallied(w)
    ensures Tallied(Flush(crc, w, m, fault).writer)
    ensures Flush(crc, w, m, fault).result.Ok? ==> Flush(crc, w, m, fault).writer.staged == []
  {
    hide CommitBatch, CompleteAll;
  }

  /** Every command, whatever fails, keeps the counters right. */
  lemma StepTallied(crc: Checksum, hash: Hash, a: Actor, c: Command, faults: Faults)
    requires Fitting(a) && Tallied(a.writer)
    ensures Tallied(Step(crc, hash, a, c, faults).actor.writer)
  {
    hide Flush, Tallied, A.Decide, StageGuard, CompleteRange, Accept;
    FlushTallied(crc, a.writer, a.owners, faults.flush);
    if c.Write? && StageGuard(a.writer, a.owners, c.worker, c.offset, c.bytes).Ok? {
      GuardMeansWritable(a.writer, a.owners, c.worker, c.offset, c.bytes);
      StageTallied(crc, hash, a.writer, a.owners, c.worker, c.offset, c.bytes, c.now, faults);
    }
  }

  lemma StageTallied(crc: Checksum, hash: Hash, w: Writer, m: Owners, worker: U64, offset: U64, bytes: seq<Byte>,
                     now: nat, faults: Faults)
    requires |m| == w.totalLength <= U64_MAX && Fits(w) && Tallied(w)
    requires StageGuard(w, m, worker, offset, bytes).Ok? && offset + |bytes| <= |m|
    requires 0 < |bytes| <= U32_MAX && w.stagedBytes + |bytes| <= U64_MAX
    ensures Tallied(Stage(crc, hash, w, m, worker, offset, bytes, now, faults).writer)
  {
    hide Flush, StageGuard, Accept, WriteData, BytesOf;
    match faults.write
    case WriteOk =>
      AcceptTallied(hash, w, worker, offset, bytes, now);
      FlushTallied(crc, Accept(hash, w, worker, offset, bytes, now), m, faults.flush);
    case WriteRefused(landed) =>
      var s := WriteData(w.store, offset, Landing(w.store, offset, landed, |bytes|));
      FlushTallied(crc, On(w, s), m, faults.flush);
    case WriteBroken(_) =>
  }

  /**
   A write that is accepted joins the batch if the batch stays below 8 MiB, and otherwise is committed
   with it before the reply. The batch is as old as the first write in it.
   */
  lemma BatchBounded(crc: Checksum, hash: Hash, a: Actor, worker: U64, offset: U64, bytes: seq<Byte>, now: nat,
                     faults: Faults)
    requires Fitting(a) && Tallied(a.writer) && !a.stopped
    ensures var t := Step(crc, hash, a, Write(worker, offset, bytes, now), faults);
            t.reply.Written? ==>
              && t.reply.lo == offset && t.reply.hi == offset + |bytes|
              && if BytesOf(a.writer.staged) + |bytes| < 8_388_608 then
                   && t.actor.writer.staged
                      == a.writer.staged + [StagedBlock(offset, offset + |bytes|, |bytes|, worker, hash(bytes))]
                   && t.actor.owners == a.owners && t.reply.durable == []
                   && t.actor.writer.firstStagedAt
                      == (if a.writer.staged == [] then Some(now) else a.writer.firstStagedAt)
                 else t.actor.writer.staged == [] && |t.reply.durable| == |a.writer.staged| + 1
  {
    hide Flush, StageGuard, CompleteRange, BytesOf, WriteData;
    if StageGuard(a.writer, a.owners, worker, offset, bytes).Ok? {
      GuardMeansWritable(a.writer, a.owners, worker, offset, bytes);
      AcceptTallied(hash, a.writer, worker, offset, bytes, now);
      var w := Accept(hash, a.writer, worker, offset, bytes, now);
      FlushTallied(crc, w, a.owners, faults.flush);
      if Flush(crc, w, a.owners, faults.flush).result.Ok? {
        FlushShape(crc, w, a.owners, faults.flush);
      }
    }
  }

  /** A tick that is answered has committed the batch if its first write is two seconds old, and only then. */
  lemma TickBounded(crc: Checksum, hash: Hash, a: Actor, now: nat, faults: Faults)
    requires Fitting(a) && Tallied(a.writer) && !a.stopped
    ensures var t, first := Step(crc, hash, a, FlushDue(now), faults), a.writer.firstStagedAt;
            t.reply.Flushed? ==>
              if first.Some? && now >= first.value + 2_000_000_000
              then t.actor.writer.staged == [] && |t.reply.durable| == |a.writer.staged|
              else t.actor == a && t.reply.durable == []
  {
    hide Flush;
    FlushTallied(crc, a.writer, a.owners, faults.flush);
    if Flush(crc, a.writer, a.owners, faults.flush).result.Ok? {
      FlushShape(crc, a.writer, a.owners, faults.flush);
    }
  }
}
