/**
 Named only when verified.

 Ties `Completion` to the runs of `Actor`: whatever commands a download has served and whatever
 has failed, the final name appears only for a file whose every byte is the byte accepted there,
 and only behind a durable seal. A crash during completion leaves a journal that still folds, and a
 crash after it leaves the verified bytes under one of the two names.
 */
module Naming {
  import opened Base
  import opened Ownership
  import opened Intervals
  import opened JournalFormat
  import opened Replay
  import J = JournalState
  import opened Storage
  import opened Writer
  import opened CommitOrder
  import opened Actor
  import C = Completion
  import opened Recovery
  import opened CrashSafety

  // ----- a broken writer never finishes a download -----

  ghost predicate Gap(m: Owners) { exists b :: 0 <= b < |m| && m[b] != Complete }

  /** A broken writer has stopped short: some byte will never be complete. */
  ghost predicate BrokenShort(a: Actor) { a.writer.poisoned ==> Gap(a.owners) }

  lemma FlushLeavesGap(crc: Checksum, w: Writer, m: Owners, fault: FlushFault)
    requires |m| <= U64_MAX && !w.poisoned && (w.staged != [] ==> Gap(m))
    ensures Flush(crc, w, m, fault).writer.poisoned ==> Gap(Flush(crc, w, m, fault).owners)
  {
    hide CommitBatch, CompleteAll;
  }

  lemma StagedIsGap(crc: Checksum, hash: Hash, h: FileHeader, w: Writer, m: Owners, acc: History,
                    recs: seq<JournalRecord>)
    requires Healthy(crc, hash, h, w, m, acc, recs)
    ensures w.staged != [] ==> Gap(m)
  {
    hide Durable, AcceptedOnce, CompleteIsCovered;
    HealthyParts(crc, hash, h, w, m, acc, recs);
    if w.staged != [] {
      assert BlockStaged(hash, w.store, m, acc, w.staged[0]);
      assert m[w.staged[0].lo] != Complete;
    }
  }

  lemma StageLeavesGap(crc: Checksum, hash: Hash, w: Writer, m: Owners, worker: U64, offset: U64, bytes: seq<Byte>,
                       now: nat, faults: Faults)
    requires |m| <= U64_MAX && Fits(w) && !w.poisoned && (w.staged != [] ==> Gap(m))
    ensures var o := Stage(crc, hash, w, m, worker, offset, bytes, now, faults); o.writer.poisoned ==> Gap(o.owners)
  {
    hide Flush, StageGuard, WriteData;
    if StageGuard(w, m, worker, offset, bytes).Ok? {
      GuardMeansWritable(w, m, worker, offset, bytes);
      assert m[offset] != Complete;
      match faults.write
      case WriteBroken(_) =>
      case WriteRefused(landed) =>
        FlushLeavesGap(crc, On(w, WriteData(w.store, offset, Landing(w.store, offset, landed, |bytes|))), m,
                       faults.flush);
      case WriteOk => FlushLeavesGap(crc, Accept(hash, w, worker, offset, bytes, now), m, faults.flush);
    }
  }

  lemma StepLeavesGap(crc: Checksum, hash: Hash, h: FileHeader, a: Actor, c: Command, faults: Faults, acc: History,
                      recs: seq<JournalRecord>, floor: nat)
    requires ActorSound(crc, hash, h, a, acc, recs, floor) && BrokenShort(a)
    ensures Fitting(a) && BrokenShort(Step(crc, hash, a, c, faults).actor)
  {
    hide Sound, Healthy, Broken, Flush, Stage, Gap, CompleteRange, A.Decide;
    SoundFits(crc, hash, h, a, acc, recs, floor);
    if a.writer.poisoned {
      PoisonedStep(crc, hash, a, c, faults);
    } else {
      StagedIsGap(crc, hash, h, a.writer, a.owners, acc, recs);
      FlushLeavesGap(crc, a.writer, a.owners, faults.flush);
      FlushPoison(crc, a.writer, a.owners, faults.flush);
      if c.Write? {
        StageLeavesGap(crc, hash, a.writer, a.owners, c.worker, c.offset, c.bytes, c.now, faults);
      }
    }
  }

  lemma FlushPoison(crc: Checksum, w: Writer, m: Owners, fault: FlushFault)
    requires |m| <= U64_MAX && !w.poisoned
    ensures Flush(crc, w, m, fault).result.Ok? ==> !Flush(crc, w, m, fault).writer.poisoned
  {
    hide CommitBatch, CompleteAll;
  }

  /** Over any run, a broken writer leaves some byte incomplete. */
  lemma {:induction false} RunLeavesGap(crc: Checksum, hash: Hash, h: FileHeader, states: seq<Actor>,
                                        hists: seq<History>, events: seq<Event>, j: nat,
                                        recs: seq<JournalRecord>, floor: nat)
    requires IsTrace(crc, hash, states, hists, events) && j <= |events|
    requires ActorSound(crc, hash, h, states[0], hists[0], recs, floor) && BrokenShort(states[0])
    ensures BrokenShort(states[j])
  {
    hide ActorSound, Step, BrokenShort, Visited;
    if j > 0 {
      var k := j - 1;
      RunLeavesGap(crc, hash, h, states, hists, events, k, recs, floor);
      var recs', floor' := RunSound(crc, hash, h, states, hists, events, 0, k, recs, floor);
      var e := events[k];
      StepLeavesGap(crc, hash, h, states[k], e.command, e.faults, hists[k], recs', floor');
    }
  }

  // ----- completion -----

  /**
   The sink's completion: refuse while work is staged, verify and name, and retire the journal
   only once the name exists.
   */
  method FinishDownload(crc: Checksum, env: C.Digests, w: Writer, ivs: seq<Interval>, total: U64, ghost m: Owners,
                  offered: Option<C.ContentDigest>, fault: C.CompletionFault, retires: bool)
    returns (images: seq<C.Shelf>, r: Result<C.SealedFile, C.CompletionError>)
    requires Describes(ivs, m) && |m| == total && w.store.synced <= |w.store.journal|
    ensures images != [] && forall i :: 0 <= i < |images| ==>
              C.Allowed(crc, env, w.store, m, |m|, offered, w.nextSequence, images[i])
    ensures forall i :: 0 <= i < |images| && images[i].named.Some? ==> w.staged == []
    ensures r.Ok? <==> w.staged == [] && |w.store.data| == |m| && AllAre(m, 0, |m|, Complete)
                       && C.Agrees(env, offered, w.store.data) && fault == C.NoFault
    ensures r.Ok? <==> images[|images| - 1].named.Some?
    ensures images[|images| - 1].retired <==> r.Ok? && retires
    ensures r.Ok? ==> C.Decides(env, offered, w.store.data, Ok(r.value.digestChecked))
    ensures C.Contradicts(env, offered, w.store.data) ==>
              forall i :: 0 <= i < |images| ==> images[i] == C.Shelf(w.store, None, false)
    ensures C.Gapless(C.Shelf(w.store, None, false), images)
    ensures w.staged != [] ==> r == Err(C.WorkStillStaged)
    ensures w.staged == [] && r.Err? ==> C.Explains(env, w.store, total, m, offered, fault, r.error)
  {
    hide C.SealFrame, C.Agrees, C.OutcomeOf, AllAre, C.Decides, C.Contradicts, C.Explains;
    C.ContradictsIff(env, offered, w.store.data);
    if w.staged != [] {
      return [C.Shelf(w.store, None, false)], Err(C.WorkStillStaged);
    }
    images, r := C.VerifyAndRename(crc, env, w.store, total, ivs, m, offered, w.nextSequence, fault);
    if r.Ok? && retires {
      images := images + [images[|images| - 1].(retired := true)];
    }
  }

  /** The file that was named, byte for byte, and the seal that preceded it. */
  ghost predicate NamedRight(crc: Checksum, env: C.Digests, h: FileHeader, acc: History, recs: seq<JournalRecord>,
                             offered: Option<C.ContentDigest>, now: C.Shelf)
  {
    && now.named.Some? && |now.named.value| == |acc| == h.totalLength
    && (forall b :: 0 <= b < |acc| ==> acc[b] == Some(now.named.value[b]))
    && C.Agrees(env, offered, now.named.value) && !C.Contradicts(env, offered, now.named.value)
    && AllEncodable(recs + [Sealed(env.blake3(now.named.value))]) && |recs| + 1 <= U64_MAX
    && now.store.journal == Journal(crc, h, recs + [Sealed(env.blake3(now.named.value))])
    && now.store.synced == |now.store.journal|
  }

  lemma CompleteMeansAccepted(crc: Checksum, hash: Hash, h: FileHeader, w: Writer, m: Owners, acc: History,
                              recs: seq<JournalRecord>)
    requires Healthy(crc, hash, h, w, m, acc, recs) && AllAre(m, 0, |m|, Complete) && |w.store.data| == |m|
    ensures |acc| == |m| == h.totalLength && forall b :: 0 <= b < |acc| ==> acc[b] == Some(w.store.data[b])
  {
    hide Journal, Plain, StagedOk, Covers;
  }

  lemma SealAppended(crc: Checksum, hash: Hash, h: FileHeader, w: Writer, m: Owners, acc: History,
                     recs: seq<JournalRecord>, d: Digest)
    requires Healthy(crc, hash, h, w, m, acc, recs) && |recs| < U64_MAX
    ensures AllEncodable(recs + [Sealed(d)])
    ensures w.store.journal + C.SealFrame(crc, w.nextSequence, d) == Journal(crc, h, recs + [Sealed(d)])
  {
    hide Journal, StagedOk, AcceptedOnce, CompleteIsCovered, Frame, CleanAccepted;
    HealthyParts(crc, hash, h, w, m, acc, recs);
    SealEncodable(d);
    JournalSnoc(crc, h, recs, Sealed(d));
  }

  lemma SealEncodable(d: Digest)
    ensures Encodable(Sealed(d))
  {
  }

  /**
   At every point of a completion, the final name exists only for the accepted bytes, behind a
   durable seal that is the last record of the journal.
   */
  lemma NamedOnlyWhenVerified(crc: Checksum, env: C.Digests, h: FileHeader, a: Actor, acc: History,
                              recs: seq<JournalRecord>, floor: nat, offered: Option<C.ContentDigest>, now: C.Shelf)
    requires ActorSound(crc, env.blake3, h, a, acc, recs, floor) && BrokenShort(a) && |recs| < U64_MAX
    requires |a.owners| <= U64_MAX
    requires C.Allowed(crc, env, a.writer.store, a.owners, |a.owners|, offered, a.writer.nextSequence, now)
    ensures now.named.Some? ==> NamedRight(crc, env, h, acc, recs, offered, now)
    ensures now.retired ==> now.named.Some?
  {
    hide Sound, Healthy, Broken, C.Agrees, C.SealFrame, Journal, AllEncodable, C.Contradicts;
    SoundFits(crc, env.blake3, h, a, acc, recs, floor);
    if now.named.Some? {
      C.ContradictsIff(env, offered, now.named.value);
      CompleteMeansAccepted(crc, env.blake3, h, a.writer, a.owners, acc, recs);
      SealAppended(crc, env.blake3, h, a.writer, a.owners, acc, recs, env.blake3(a.writer.store.data));
    }
  }

  /** The same over every run from a sound start, with any commands and any failures before it. */
  lemma NamedAfterAnyRun(crc: Checksum, env: C.Digests, h: FileHeader, states: seq<Actor>, hists: seq<History>,
                         events: seq<Event>, recs: seq<JournalRecord>, floor: nat,
                         offered: Option<C.ContentDigest>, now: C.Shelf)
    returns (recs': seq<JournalRecord>)
    requires IsTrace(crc, env.blake3, states, hists, events)
    requires ActorSound(crc, env.blake3, h, states[0], hists[0], recs, floor) && BrokenShort(states[0])
    requires var a := states[|events|];
             && |a.owners| <= U64_MAX && a.writer.nextSequence < U64_MAX
             && C.Allowed(crc, env, a.writer.store, a.owners, |a.owners|, offered, a.writer.nextSequence, now)
    ensures now.named.Some? ==> NamedRight(crc, env, h, hists[|events|], recs', offered, now)
    ensures now.retired ==> now.named.Some?
  {
    hide ActorSound, BrokenShort, C.Allowed, NamedRight, Visited, Step, HistoryAfter;
    var n, floor' := |events|, 0;
    recs', floor' := RunSound(crc, env.blake3, h, states, hists, events, 0, n, recs, floor);
    RunLeavesGap(crc, env.blake3, h, states, hists, events, n, recs, floor);
    var a, acc := states[n], hists[n];
    NamedHasSequence(crc, env, h, a, acc, recs', floor', offered, now);
    if now.named.Some? {
      NamedOnlyWhenVerified(crc, env, h, a, acc, recs', floor', offered, now);
    }
    NotRetired(crc, env, a, offered, now);
  }

  lemma NotRetired(crc: Checksum, env: C.Digests, a: Actor, offered: Option<C.ContentDigest>, now: C.Shelf)
    requires |a.owners| <= U64_MAX
    requires C.Allowed(crc, env, a.writer.store, a.owners, |a.owners|, offered, a.writer.nextSequence, now)
    ensures now.retired ==> now.named.Some?
  {
  }

  lemma NamedHasSequence(crc: Checksum, env: C.Digests, h: FileHeader, a: Actor, acc: History,
                         recs: seq<JournalRecord>, floor: nat, offered: Option<C.ContentDigest>, now: C.Shelf)
    requires ActorSound(crc, env.blake3, h, a, acc, recs, floor) && BrokenShort(a)
    requires |a.owners| <= U64_MAX && a.writer.nextSequence < U64_MAX
    requires C.Allowed(crc, env, a.writer.store, a.owners, |a.owners|, offered, a.writer.nextSequence, now)
    ensures now.named.Some? ==> |recs| < U64_MAX
  {
    hide Sound, Broken, C.Agrees, C.SealFrame, Journal, AllEncodable, Durable, StagedOk, AcceptedOnce,
      CompleteIsCovered;
    SoundFits(crc, env.blake3, h, a, acc, recs, floor);
  }

  // ----- a crash during completion -----

  lemma {:induction false} NoTruncateLength(h: FileHeader, recs: seq<JournalRecord>, n: nat)
    requires n <= |recs| && forall i :: 0 <= i < n ==> !recs[i].Truncate?
    ensures J.LengthAt(h, recs, n) == h.totalLength
  {
    if n > 0 {
      NoTruncateLength(h, recs, n - 1);
    }
  }

  /** A sealed journal folds, and says it is sealed. */
  lemma SealedFolds(h: FileHeader, recs: seq<JournalRecord>, d: Digest)
    requires Plain(h, recs)
    ensures var s := J.Effective(h, recs + [Sealed(d)]);
            && s.Ok? && s.value.sealed == Some(d) && s.value.effectiveLength == h.totalLength
            && forall b :: J.Covered(s.value.blocks, b) <==> Covers(recs, b)
  {
    hide J.LengthAt, J.Inside, J.Effective, J.Covered, Covers, J.Disjoint, Encodable, Apart, J.IdentitiesOf,
      J.LastTruncate;
    var all := recs + [Sealed(d)];
    assert all[..|all| - 1] == recs;
    PlainBlocks(h, recs);
    forall i | 0 <= i < |recs| ensures PlainRecord(h, all[i]) && !all[i].Truncate? {
      assert PlainRecord(h, recs[i]);
    }
    NoTruncateLength(h, all, |all|);
    InsideAll(J.BlocksOf(recs), h.totalLength);
    forall i | 0 <= i < |all| ensures J.RecordFits(h, all, i) {
      NoTruncateLength(h, all, i);
    }
    J.EffectiveSucceedsIff(h, all);
    J.EffectiveClosedForm(h, all);
    var blocks := J.Effective(h, all).value.blocks;
    J.SameMembers(blocks, J.BlocksOf(recs));
    forall b ensures J.Covered(blocks, b) <==> Covers(recs, b) {
      BlocksCover(recs, b);
      SameCoverage(blocks, J.BlocksOf(recs), b);
    }
  }

  /** What a crash during sealing leaves of the records: the writer's own, and the seal if all of it survived. */
  ghost function SealedIf(whole: bool, recs: seq<JournalRecord>, d: Digest): seq<JournalRecord>
  {
    if whole then recs + [Sealed(d)] else recs
  }

  /** Replay finds the writer's records, and the seal exactly when all of it survived. */
  lemma CompletionCrashReplays(crc: Checksum, h: FileHeader, recs: seq<JournalRecord>, d: Digest, found: seq<Byte>)
    requires Plain(h, recs) && |recs| < U64_MAX && AllEncodable(recs + [Sealed(d)]) && |found| <= U64_MAX
    requires Journal(crc, h, recs) <= found <= Journal(crc, h, recs + [Sealed(d)])
    ensures var o := ReplayBytes(crc, found);
            && o.Ok? && o.value.header == h
            && RecordsOf(o.value.records) == SealedIf(found == Journal(crc, h, recs + [Sealed(d)]), recs, d)
            && J.Effective(h, RecordsOf(o.value.records)).Ok?
  {
    hide ReplayBytes, Journal, WholeFrames, Encodable, J.Effective, PlainRecord, Apart, Covers, J.Covered;
    var all := recs + [Sealed(d)];
    JournalHasHeader(crc, h, recs);
    assert found == Journal(crc, h, all)[..|found|];
    ReplayPrefixExact(crc, h, all, |found|);
    var k := WholeFrames(crc, all, 0, |found| - HEADER_LEN);
    assert all[..|recs|] == recs && all[..|all|] == all;
    SyncedFrames(crc, h, all, |recs|, |found|);
    if found == Journal(crc, h, all) {
      SyncedFrames(crc, h, all, |all|, |found|);
    }
    assert RecordsOf(Numbered(all[..k], 0)) == all[..k];
    PlainFolds(h, recs);
    SealedFolds(h, recs, d);
  }

  /** What the records of an interrupted completion fold to. */
  lemma SealedIfFolds(h: FileHeader, recs: seq<JournalRecord>, d: Digest, whole: bool)
    requires Plain(h, recs)
    ensures var s := J.Effective(h, SealedIf(whole, recs, d));
            && s.Ok? && s.value.sealed == (if whole then Some(d) else None) && s.value.effectiveLength == h.totalLength
            && forall b :: J.Covered(s.value.blocks, b) <==> Covers(recs, b)
  {
    hide J.Effective, J.Covered, Covers, Plain;
    if whole {
      SealedFolds(h, recs, d);
    } else {
      PlainFolds(h, recs);
      PlainState(h, recs);
      J.EffectiveClosedForm(h, recs);
    }
  }

  /** The disk states of a completion leave the synced journal and the part file alone. */
  lemma SealingCrash(crc: Checksum, env: C.Digests, h: FileHeader, w: Writer, m: Owners, acc: History,
                     recs: seq<JournalRecord>, now: C.Shelf, after: Store)
    requires Healthy(crc, env.blake3, h, w, m, acc, recs) && |recs| < U64_MAX && Crash(now.store, after)
    requires C.Sealing(crc, env, w.store, w.nextSequence, now)
    ensures var d := env.blake3(w.store.data);
            && Plain(h, recs) && AllEncodable(recs) && AllEncodable(recs + [Sealed(d)])
            && Journal(crc, h, recs) <= after.journal <= Journal(crc, h, recs + [Sealed(d)])
    ensures |m| == |acc| == h.totalLength <= |after.data|
    ensures forall b :: 0 <= b < |m| && m[b] == Complete ==> acc[b] == Some(after.data[b])
    ensures CompleteIsCovered(m, recs)
  {
    hide Journal, PlainRecord, Apart, StagedOk, AcceptedOnce, Covers, Encodable, C.SealFrame;
    SealAppended(crc, env.blake3, h, w, m, acc, recs, env.blake3(w.store.data));
    assert recs[..|recs|] == recs;
  }

  /**
   Recovery after a crash during completion: every byte that was complete is complete with its
   accepted value and no other is, and the seal is reported exactly when all of it survived.
   */
  lemma CompletionCrashRecovers(crc: Checksum, env: C.Digests, h: FileHeader, w: Writer, m: Owners, acc: History,
                                recs: seq<JournalRecord>, now: C.Shelf, after: Store, meta: Metadata)
    returns (r: Recovered)
    requires Healthy(crc, env.blake3, h, w, m, acc, recs) && |recs| < U64_MAX
    requires C.Sealing(crc, env, w.store, w.nextSequence, now) && Crash(now.store, after)
    requires |after.journal| <= U64_MAX && Resumable(h, meta)
    ensures RecoveredAs(crc, h, meta, after, r) && r.report.state == Paused
    ensures |r.report.owners| == |m| == |acc| <= |after.data|
    ensures forall b :: 0 <= b < |m| ==> r.report.owners[b] == if m[b] == Complete then Complete else Pending
    ensures forall b :: 0 <= b < |m| && r.report.owners[b] == Complete ==> acc[b] == Some(after.data[b])
    ensures var d := env.blake3(w.store.data);
            && AllEncodable(recs + [Sealed(d)])
            && r.report.sealed == if after.journal == Journal(crc, h, recs + [Sealed(d)]) then Some(d) else None
  {
    hide ReplayBytes, J.Effective, Journal, Plain, Reconcile, J.Inside, J.Covered, Covers, Count, AllEncodable, Healthy,
      Crash, C.Sealing, Repair;
    var d := env.blake3(w.store.data);
    SealingCrash(crc, env, h, w, m, acc, recs, now, after);
    CompletionCrashReplays(crc, h, recs, d, after.journal);
    var whole := after.journal == Journal(crc, h, recs + [Sealed(d)]);
    SealedIfFolds(h, recs, d, whole);
    var files := Found(after);
    ReconcileExact(crc, h.transferId, meta, files);
    r := Reconcile(crc, h.transferId, Some(meta), files).value;
    EffectiveBlocks(h, SealedIf(whole, recs, d));
    InsideAll(Says(crc, after.journal).blocks, |after.data|);
  }

  // ----- a crash after the rename -----

  /** What is found after a crash: the files recovery looks for, and the file under the final name. */
  datatype Remains = Remains(files: Artifacts, named: Option<seq<Byte>>)

  /**
   The rename and the removal of the journal are not followed by a directory sync, so either may be
   undone by the crash, independently of the other.
   */
  ghost predicate ShelfCrash(now: C.Shelf, after: Store, left: Remains)
  {
    && Crash(now.store, after)
    && (|| (left.named.None? && left.files.part == Some(after.data))
        || (now.named.Some? && left.named == Some(after.data) && left.files.part.None?))
    && (left.files.journal == Some(after.journal) || (now.retired && left.files.journal.None?))
  }

  /** The verified bytes, under whichever name the crash left them. */
  ghost function VerifiedBytes(left: Remains): seq<Byte>
  {
    if left.named.Some? then left.named.value else if left.files.part.Some? then left.files.part.value else []
  }

  lemma RenamedStore(crc: Checksum, env: C.Digests, h: FileHeader, w: Writer, m: Owners, acc: History,
                     recs: seq<JournalRecord>, offered: Option<C.ContentDigest>, now: C.Shelf, after: Store)
    requires Healthy(crc, env.blake3, h, w, m, acc, recs) && |recs| < U64_MAX
    requires C.Allowed(crc, env, w.store, m, |m|, offered, w.nextSequence, now) && now.named.Some?
    requires Crash(now.store, after)
    ensures |after.data| == |acc| == |m| == h.totalLength && AllAre(m, 0, |m|, Complete)
    ensures forall b :: 0 <= b < |acc| ==> acc[b] == Some(after.data[b])
    ensures C.Agrees(env, offered, after.data)
    ensures var d := env.blake3(w.store.data);
            AllEncodable(recs + [Sealed(d)]) && after.journal == Journal(crc, h, recs + [Sealed(d)])
  {
    hide Journal, Plain, StagedOk, Covers, C.SealFrame, C.Agrees, AllEncodable;
    CompleteMeansAccepted(crc, env.blake3, h, w, m, acc, recs);
    SealAppended(crc, env.blake3, h, w, m, acc, recs, env.blake3(w.store.data));
    SealingCrash(crc, env, h, w, m, acc, recs, now, after);
    assert after.data == w.store.data;
  }

  /**
   A crash after the rename. The verified bytes are all there, under exactly one name, and a journal
   that is still there is whole and sealed. Recovery completes every byte if the crash undid the rename
   and left the journal. It reports the download as failed, its part file missing, exactly when the
   rename survived: the finished file is then under its final name, and nothing in recovery looks there.
   */
  lemma RenameCrashRecovers(crc: Checksum, env: C.Digests, h: FileHeader, w: Writer, m: Owners, acc: History,
                            recs: seq<JournalRecord>, offered: Option<C.ContentDigest>, now: C.Shelf, after: Store,
                            left: Remains, meta: Metadata)
    requires Healthy(crc, env.blake3, h, w, m, acc, recs) && |recs| < U64_MAX
    requires C.Allowed(crc, env, w.store, m, |m|, offered, w.nextSequence, now) && now.named.Some?
    requires ShelfCrash(now, after, left) && |after.journal| <= U64_MAX && Resumable(h, meta)
    ensures left.named.Some? <==> left.files.part.None?
    ensures |VerifiedBytes(left)| == |acc| && forall b :: 0 <= b < |acc| ==> acc[b] == Some(VerifiedBytes(left)[b])
    ensures C.Agrees(env, offered, VerifiedBytes(left))
    ensures var d := env.blake3(w.store.data);
            && AllEncodable(recs + [Sealed(d)])
            && (left.files.journal.Some? ==> left.files.journal.value == Journal(crc, h, recs + [Sealed(d)]))
    ensures var r := Reconcile(crc, h.transferId, Some(meta), left.files);
            && r.Ok? && (r.value.report.failure == Some(PartFileMissing) <==> left.named.Some?)
            && (left.named.None? ==> r.value.report.state == Paused && |r.value.report.owners| == |m|)
            && (left.named.None? && left.files.journal.Some? ==>
                  AllAre(r.value.report.owners, 0, |m|, Complete)
                  && r.value.report.sealed == Some(env.blake3(w.store.data)))
            && (left.named.None? && left.files.journal.None? ==>
                  AllAre(r.value.report.owners, 0, |m|, Pending) && r.value.files == left.files)
  {
    hide ReplayBytes, Journal, Healthy, C.Agrees, ReconcileJournal, AllEncodable, Crash, C.Earned, C.Sealing;
    RenamedStore(crc, env, h, w, m, acc, recs, offered, now, after);
    if left.named.None? && left.files.journal.Some? {
      var r := CompletionCrashRecovers(crc, env, h, w, m, acc, recs, now, after, meta);
      assert left.files == Found(after);
      ReconcileRefusals(crc, h.transferId, meta, left.files);
      ReconcileReasons(crc, h.transferId, meta, left.files);
    }
  }
}
