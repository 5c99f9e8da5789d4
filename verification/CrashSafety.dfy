/**
 Crash safety of the whole storage core.

 A session serves any commands with any failures and stops at any disk state; the crash gives
 dirty bytes any value and cuts the unsynced journal tail at any byte; recovery rebuilds the map
 and a new session starts. `CrashSafe` is the statement for one crash, `SessionsSafe` for any
 number of them.
 */
module CrashSafety {
  import opened Base
  import opened Ownership
  import opened JournalFormat
  import opened Replay
  import J = JournalState
  import opened Storage
  import opened Writer
  import opened CommitOrder
  import opened Actor
  import opened Recovery
  import P = Packing
  import C = Compaction

  // ----- what the writer's journals fold to -----

  lemma {:induction false} PlainLength(h: FileHeader, recs: seq<JournalRecord>, n: nat)
    requires Plain(h, recs) && n <= |recs|
    ensures J.LengthAt(h, recs, n) == h.totalLength
  {
    if n > 0 {
      PlainLength(h, recs, n - 1);
      assert PlainRecord(h, recs[n - 1]);
    }
  }

  lemma PlainPrefix(h: FileHeader, recs: seq<JournalRecord>, n: nat)
    requires Plain(h, recs) && n <= |recs|
    ensures Plain(h, recs[..n])
  {
    hide PlainRecord, Apart, Encodable;
  }

  lemma {:induction false} BlocksCover(recs: seq<JournalRecord>, b: nat)
    ensures J.Covered(J.BlocksOf(recs), b) <==> Covers(recs, b)
  {
    hide J.Covered, Covers;
    if recs == [] {
      NothingCovered(b);
    } else {
      var n := |recs| - 1;
      var init, l := recs[..n], recs[n];
      BlocksCover(init, b);
      assert recs == init + [l];
      CoversConcat(init, [l], b);
      CoversOne(l, b);
      if l.BlockComplete? {
        var blocks := J.BlocksOf(recs);
        CoveredLast(blocks, b);
        assert blocks[..|blocks| - 1] == J.BlocksOf(init);
      }
    }
  }

  lemma NothingCovered(b: nat)
    ensures !J.Covered([], b) && !Covers([], b)
  {
  }

  lemma CoversOne(r: JournalRecord, b: nat)
    ensures Covers([r], b) <==> Holds(r, b)
  {
    if Holds(r, b) { assert Holds([r][0], b); }
  }

  lemma {:induction false} PlainBlocks(h: FileHeader, recs: seq<JournalRecord>)
    requires Plain(h, recs)
    ensures J.Disjoint(J.BlocksOf(recs))
    ensures forall i :: 0 <= i < |J.BlocksOf(recs)| ==> J.End(J.BlocksOf(recs)[i]) <= h.totalLength
  {
    hide Plain, J.Disjoint;
    if recs == [] {
      NothingDisjoint();
    } else {
      var n := |recs| - 1;
      PlainPrefix(h, recs, n);
      PlainBlocks(h, recs[..n]);
      PlainLast(h, recs);
      if recs[n].BlockComplete? {
        DisjointSnoc(J.BlocksOf(recs[..n]), J.CompletedBlock(recs[n].offset, recs[n].len, recs[n].blake3));
      }
    }
  }

  lemma NothingDisjoint()
    ensures J.Disjoint([])
  {
  }

  lemma PlainLast(h: FileHeader, recs: seq<JournalRecord>)
    requires Plain(h, recs) && recs != []
    ensures var n := |recs| - 1;
            recs[n].BlockComplete? ==>
              && recs[n].offset + recs[n].len <= h.totalLength
              && forall i :: 0 <= i < |J.BlocksOf(recs[..n])| ==>
                   var b := J.BlocksOf(recs[..n])[i];
                   J.End(b) <= recs[n].offset || recs[n].offset + recs[n].len <= b.offset
  {
    hide J.BlocksOf;
    var n := |recs| - 1;
    assert PlainRecord(h, recs[n]);
    if recs[n].BlockComplete? {
      forall i | 0 <= i < |J.BlocksOf(recs[..n])|
        ensures var b := J.BlocksOf(recs[..n])[i];
                J.End(b) <= recs[n].offset || recs[n].offset + recs[n].len <= b.offset
      {
        var k := J.BlockOrigin(recs[..n], J.BlocksOf(recs[..n])[i]);
        assert Apart(recs[k], recs[n]);
      }
    }
  }

  lemma DisjointSnoc(blocks: seq<J.CompletedBlock>, l: J.CompletedBlock)
    requires J.Disjoint(blocks)
    requires forall i :: 0 <= i < |blocks| ==> J.End(blocks[i]) <= l.offset || J.End(l) <= blocks[i].offset
    ensures J.Disjoint(blocks + [l])
  {
  }

  /** Every prefix of a writer's journal folds without error, to exactly its own coverage. */
  lemma PlainFolds(h: FileHeader, recs: seq<JournalRecord>)
    requires Plain(h, recs)
    ensures J.Effective(h, recs).Ok?
    ensures var s := J.Effective(h, recs).value;
            && s.effectiveLength == h.totalLength
            && (forall i :: 0 <= i < |s.blocks| ==> J.End(s.blocks[i]) <= h.totalLength)
            && forall b :: J.Covered(s.blocks, b) <==> Covers(recs, b)
  {
    hide J.LengthAt, J.BlocksOf, J.Effective, Covers, J.Inside, J.Covered;
    PlainLength(h, recs, |recs|);
    PlainBlocks(h, recs);
    InsideAll(J.BlocksOf(recs), h.totalLength);
    forall i | 0 <= i < |recs| ensures J.RecordFits(h, recs, i) {
      PlainLength(h, recs, i);
      assert PlainRecord(h, recs[i]);
    }
    J.EffectiveSucceedsIff(h, recs);
    J.EffectiveClosedForm(h, recs);
    EffectiveBlocks(h, recs);
    var s := J.Effective(h, recs).value;
    J.SameMembers(s.blocks, J.BlocksOf(recs));
    forall b ensures J.Covered(s.blocks, b) <==> Covers(recs, b) {
      BlocksCover(recs, b);
      SameCoverage(s.blocks, J.BlocksOf(recs), b);
    }
  }

  lemma SameCoverage(a: seq<J.CompletedBlock>, c: seq<J.CompletedBlock>, b: nat)
    requires forall x :: x in a <==> x in c
    ensures J.Covered(a, b) <==> J.Covered(c, b)
  {
    if i :| 0 <= i < |a| && a[i].offset <= b < J.End(a[i]) {
      assert a[i] in c;
    }
    if i :| 0 <= i < |c| && c[i].offset <= b < J.End(c[i]) {
      assert c[i] in a;
    }
  }

  // ----- one crash -----

  /** However the tail is torn, replay finds a prefix no shorter than what was synced. */
  lemma CrashReplays(crc: Checksum, h: FileHeader, s: Store, acc: History, recs: seq<JournalRecord>, floor: nat,
                     after: Store) returns (k: nat)
    requires Durable(crc, h, s, acc, recs, floor) && Crash(s, after) && |after.journal| <= U64_MAX
    ensures floor <= k <= |recs| && Plain(h, recs[..k])
    ensures var o := ReplayBytes(crc, after.journal);
            && o.Ok? && o.value.header == h && RecordsOf(o.value.records) == recs[..k]
            && |o.value.records| == k
    ensures Repair(crc, after.journal) == Journal(crc, h, recs[..k])
  {
    hide ReplayBytes, Journal, EncodeAll, WholeFrames, Repair, CleanAccepted, PlainRecord, Apart, Encodable;
    var cut := |after.journal|;
    SyncedHeader(crc, h, s, recs, floor);
    assert after.journal == Journal(crc, h, recs)[..cut];
    ReplayPrefixExact(crc, h, recs, cut);
    k := WholeFrames(crc, recs, 0, cut - HEADER_LEN);
    SyncedFrames(crc, h, recs, floor, cut);
    PlainPrefix(h, recs, k);
    ReplayCanonical(crc, after.journal);
    assert RecordsOf(Numbered(recs[..k], 0)) == recs[..k];
  }

  lemma SyncedHeader(crc: Checksum, h: FileHeader, s: Store, recs: seq<JournalRecord>, floor: nat)
    requires AllEncodable(recs) && |recs| <= U64_MAX && floor <= |recs|
    requires PrefixSynced(crc, h, s, recs, floor)
    ensures s.synced >= HEADER_LEN
  {
    hide EncodeHeader, EncodeAll;
  }

  lemma SyncedFrames(crc: Checksum, h: FileHeader, recs: seq<JournalRecord>, floor: nat, cut: nat)
    requires AllEncodable(recs) && |recs| <= U64_MAX && floor <= |recs| && cut >= HEADER_LEN
    requires |Journal(crc, h, recs[..floor])| <= cut
    ensures floor <= WholeFrames(crc, recs, 0, cut - HEADER_LEN)
  {
    hide EncodeHeader, EncodeAll, WholeFrames;
    WholeFramesFit(crc, recs, 0, cut - HEADER_LEN, floor);
  }

  /** The files recovery finds. */
  ghost function Found(after: Store): Artifacts
  {
    Artifacts(Some(after.data), Some(after.journal))
  }

  /** The record of a download that was running over the representation of `h`. */
  ghost predicate Resumable(h: FileHeader, meta: Metadata)
  {
    && !meta.state.Completed? && !meta.state.Failed?
    && meta.totalLength == Some(h.totalLength) && h.totalLength <= I64_MAX
  }

  /** What recovery makes of the crash: the map, the files and the next sequence number. */
  ghost predicate RecoveredAs(crc: Checksum, h: FileHeader, meta: Metadata, after: Store, r: Recovered)
  {
    |after.journal| <= U64_MAX && Reconcile(crc, h.transferId, Some(meta), Found(after)) == Ok(r)
  }

  /**
   One crash: recovery succeeds; every byte it marks complete is on disk with the value that was
   accepted there; every byte of the synced records is marked complete; nothing stays granted.
   */
  lemma CrashSafe(crc: Checksum, h: FileHeader, s: Store, acc: History, recs: seq<JournalRecord>, floor: nat,
                  after: Store, meta: Metadata) returns (k: nat, r: Recovered)
    requires Durable(crc, h, s, acc, recs, floor) && Crash(s, after) && |after.journal| <= U64_MAX
    requires Resumable(h, meta)
    ensures floor <= k <= |recs| && Plain(h, recs[..k]) && RecoveredAs(crc, h, meta, after, r)
    ensures r.report.state == Paused && |r.report.owners| == h.totalLength == |acc| <= |after.data|
    ensures forall b :: 0 <= b < h.totalLength ==>
              r.report.owners[b] == if Covers(recs[..k], b) then Complete else Pending
    ensures forall b :: 0 <= b < h.totalLength && r.report.owners[b] == Complete ==> acc[b] == Some(after.data[b])
    ensures r.report.coveredBytes == Count(r.report.owners, Complete) && r.report.nextSequence == k
    ensures r.files == Artifacts(Some(after.data), Some(Journal(crc, h, recs[..k])))
    ensures Resumable(h, r.metadata)
  {
    hide ReplayBytes, J.Effective, Journal, Repair, Plain, Reconcile, J.Inside, J.Covered, Covers, Count;
    k := CrashReplays(crc, h, s, acc, recs, floor, after);
    PlainFolds(h, recs[..k]);
    var files := Found(after);
    ReconcileExact(crc, h.transferId, meta, files);
    r := Reconcile(crc, h.transferId, Some(meta), files).value;
    InsideAll(Says(crc, files.journal.value).blocks, |after.data|);
    forall b | 0 <= b < h.totalLength && Covers(recs[..k], b) ensures acc[b] == Some(after.data[b]) {
      CoversMore(recs, k, b);
    }
  }

  lemma CoversMore(recs: seq<JournalRecord>, k: nat, b: nat)
    requires k <= |recs|
    ensures Covers(recs[..k], b) ==> Covers(recs, b)
  {
    assert recs == recs[..k] + recs[k..];
    CoversConcat(recs[..k], recs[k..], b);
  }

  // ----- from one session to the next -----

  /** What is still remembered after a recovery: the bytes the rebuilt map calls complete. */
  ghost function Surviving(acc: History, m: Owners): (r: History)
    requires |acc| == |m|
    ensures |r| == |acc|
    ensures forall b :: 0 <= b < |acc| ==> r[b] == if m[b] == Complete then acc[b] else None
  {
    seq(|acc|, b requires 0 <= b < |acc| => if m[b] == Complete then acc[b] else None)
  }

  ghost function OnDisk(files: Artifacts): Store
    requires files.part.Some? && files.journal.Some?
  {
    Store(files.part.value, seq(|files.part.value|, _ => false), files.journal.value, |files.journal.value|)
  }

  /** A session over the reconciled files: a fresh writer and the rebuilt map. */
  ghost function Restart(h: FileHeader, r: Recovered, minSplit: U64): Actor
    requires r.files.part.Some? && r.files.journal.Some? && r.report.nextSequence <= U64_MAX
  {
    var s := OnDisk(r.files);
    var w := Create(h.totalLength, h.totalLength, s, r.report.nextSequence).value;
    Actor(w, r.report.owners, minSplit, false)
  }

  /** The rebuilt map with a fresh writer satisfies the invariant the next session starts from. */
  lemma RestartHealthy(crc: Checksum, hash: Hash, h: FileHeader, s: Store, acc: History, recs: seq<JournalRecord>,
                       floor: nat, after: Store, meta: Metadata, minSplit: U64, k: nat, r: Recovered)
    requires Durable(crc, h, s, acc, recs, floor) && Crash(s, after) && |after.journal| <= U64_MAX
    requires Resumable(h, meta) && k <= |recs| && Plain(h, recs[..k])
    requires |r.report.owners| == h.totalLength && r.report.nextSequence == k
    requires forall b :: 0 <= b < h.totalLength ==>
               r.report.owners[b] == if Covers(recs[..k], b) then Complete else Pending
    requires forall b :: 0 <= b < h.totalLength && r.report.owners[b] == Complete ==> acc[b] == Some(after.data[b])
    requires r.files == Artifacts(Some(after.data), Some(Journal(crc, h, recs[..k])))
    ensures var a := Restart(h, r, minSplit);
            Healthy(crc, hash, h, a.writer, a.owners, Surviving(acc, r.report.owners), recs[..k])
  {
    hide Journal, Covers, PlainRecord, Apart, Encodable;
    assert recs[..k][..k] == recs[..k];
    var a := Restart(h, r, minSplit);
    JournalHasHeader(crc, h, recs[..k]);
    NothingStaged(hash, a.writer.store, a.owners, Surviving(acc, r.report.owners));
    NoneStaged(a.owners, Surviving(acc, r.report.owners));
  }

  lemma JournalHasHeader(crc: Checksum, h: FileHeader, recs: seq<JournalRecord>)
    requires AllEncodable(recs) && |recs| <= U64_MAX
    ensures |Journal(crc, h, recs)| >= HEADER_LEN
  {
    hide EncodeHeader, EncodeAll;
  }

  lemma NoneStaged(m: Owners, acc: History)
    requires |m| == |acc| && forall b :: 0 <= b < |m| ==> (acc[b].Some? <==> m[b] == Complete)
    ensures AcceptedOnce(m, [], acc)
  {
  }

  // ----- compaction between sessions -----

  /**
   What recovery may find: the files the crash left, or the same after a compaction, whether it
   finished or stopped once the damaged tail was cut off.
   */
  ghost predicate Tidied(crc: Checksum, hash: Hash, after: Store, found: Store)
  {
    || found == after
    || (&& found == Store(after.data, after.dirty, found.journal, |found.journal|)
        && (|| (Replays(crc, after.journal) && found.journal == Repair(crc, after.journal))
            || exists clock :: C.Compacts(crc, hash, after.journal, after.data, clock, found.journal)))
  }

  lemma PlainState(h: FileHeader, recs: seq<JournalRecord>)
    requires Plain(h, recs)
    ensures J.LastTruncate(recs) == None && J.SealOf(recs) == None
    ensures forall i :: 0 <= i < |J.IdentitiesOf(recs)| ==> Encodable(IdentityUpdate(J.IdentitiesOf(recs)[i]))
  {
    hide Encodable, Apart;
    C.IdentitiesEncodable(recs);
    NeverTruncated(h, recs);
    if recs != [] {
      assert PlainRecord(h, recs[|recs| - 1]);
    }
  }

  lemma {:induction false} NeverTruncated(h: FileHeader, recs: seq<JournalRecord>)
    requires forall i :: 0 <= i < |recs| ==> PlainRecord(h, recs[i])
    ensures J.LastTruncate(recs) == None
  {
    if recs != [] {
      assert PlainRecord(h, recs[|recs| - 1]);
      NeverTruncated(h, recs[..|recs| - 1]);
    }
  }

  lemma MergedCovers(front: seq<JournalRecord>, merged: seq<J.CompletedBlock>, b: nat)
    requires forall i :: 0 <= i < |front| ==> !front[i].BlockComplete?
    ensures Covers(front + C.BlockRecords(merged), b) <==> J.Covered(merged, b)
  {
    var recs := C.BlockRecords(merged);
    CoversConcat(front, recs, b);
    if J.Covered(merged, b) {
      var i :| 0 <= i < |merged| && merged[i].offset <= b < J.End(merged[i]);
      assert Holds(recs[i], b);
    }
  }

  /** The compacted form of a plain journal is plain and covers the same bytes. */
  lemma CompactedPlain(hash: Hash, part: seq<Byte>, h: FileHeader, recs: seq<JournalRecord>,
                       merged: seq<J.CompletedBlock>, covered: U64, clock: U64)
    requires Plain(h, recs) && P.Packed(hash, part, merged)
    requires J.Effective(h, recs).Ok? && P.SameBytes(merged, J.Effective(h, recs).value.blocks)
    requires var next := C.CompactRecords(J.Effective(h, recs).value, merged, covered, clock);
             |next| <= U64_MAX && AllEncodable(next)
    ensures var next := C.CompactRecords(J.Effective(h, recs).value, merged, covered, clock);
            Plain(h, next) && forall b: nat :: Covers(next, b) <==> Covers(recs, b)
  {
    hide J.Effective, Covers, J.Covered, P.Packed, Encodable, Plain, C.IdentityRecords, C.BlockRecords;
    var s := J.Effective(h, recs).value;
    PlainFolds(h, recs);
    PlainState(h, recs);
    J.EffectiveClosedForm(h, recs);
    var front := C.IdentityRecords(s.identities) + [Checkpoint(covered, clock)];
    var next := C.CompactRecords(s, merged, covered, clock);
    assert next == front + C.BlockRecords(merged);
    C.MergedInside(hash, part, s.blocks, merged, h.totalLength);
    P.PackedChecks(hash, part, merged);
    FrontAndBlocksPlain(h, front, merged);
    forall b: nat ensures Covers(next, b) <==> Covers(recs, b) {
      MergedCovers(front, merged, b);
      assert J.Covered(merged, b) <==> J.Covered(s.blocks, b);
    }
  }

  lemma FrontAndBlocksPlain(h: FileHeader, front: seq<JournalRecord>, merged: seq<J.CompletedBlock>)
    requires forall i :: 0 <= i < |front| ==> !front[i].BlockComplete? && PlainRecord(h, front[i])
    requires forall i :: 0 <= i < |merged| ==> 0 < merged[i].len && J.End(merged[i]) <= h.totalLength
    requires J.Ordered(merged)
    requires |front| + |merged| <= U64_MAX && AllEncodable(front + C.BlockRecords(merged))
    ensures Plain(h, front + C.BlockRecords(merged))
  {
    hide Encodable, C.BlockRecords;
    var recs := front + C.BlockRecords(merged);
    forall i | 0 <= i < |recs| ensures PlainRecord(h, recs[i]) {
      if i >= |front| {
        assert recs[i] == C.BlockRecord(merged[i - |front|]);
      }
    }
    forall i, j | 0 <= i < j < |recs| ensures Apart(recs[i], recs[j]) {
      if i >= |front| {
        assert recs[i] == C.BlockRecord(merged[i - |front|]) && recs[j] == C.BlockRecord(merged[j - |front|]);
      }
    }
  }

  /** A compacted journal over crashed files is durable, synced, and covers what replay found. */
  lemma TidiedDurable(crc: Checksum, hash: Hash, h: FileHeader, s: Store, acc: History, recs: seq<JournalRecord>,
                      floor: nat, after: Store, found: Store, clock: U64) returns (next: seq<JournalRecord>)
    requires Durable(crc, h, s, acc, recs, floor) && Crash(s, after)
    requires C.Compacts(crc, hash, after.journal, after.data, clock, found.journal)
    requires found == Store(after.data, after.dirty, found.journal, |found.journal|)
    ensures Durable(crc, h, found, acc, next, |next|) && Crash(found, found)
    ensures forall b: nat :: Covers(recs[..floor], b) ==> Covers(next, b)
  {
    hide J.Effective, Covers, P.Packed, P.SameBytes, ReplayBytes, Journal, C.CompactRecords, C.TotalLen, AllEncodable,
      Plain, Repair;
    var k := CrashReplays(crc, h, s, acc, recs, floor, after);
    var state := Says(crc, after.journal);
    var merged :| P.Packed(hash, after.data, merged) && P.SameBytes(merged, state.blocks)
                  && C.EncodesMerged(crc, h, state, merged, clock, found.journal);
    next := C.CompactRecords(state, merged, C.TotalLen(merged), clock);
    CompactedPlain(hash, after.data, h, recs[..k], merged, C.TotalLen(merged), clock);
    JournalHasHeader(crc, h, next);
    assert next[..|next|] == next;
    forall b: nat ensures Covers(next, b) ==> Covers(recs, b) {
      CoversMore(recs, k, b);
    }
    forall b: nat ensures Covers(recs[..floor], b) ==> Covers(next, b) {
      assert recs[..k][..floor] == recs[..floor];
      CoversMore(recs[..k], floor, b);
    }
  }

  /** So is a journal whose damaged tail has been cut off. */
  lemma MendedDurable(crc: Checksum, h: FileHeader, s: Store, acc: History, recs: seq<JournalRecord>, floor: nat,
                      after: Store, found: Store) returns (next: seq<JournalRecord>)
    requires Durable(crc, h, s, acc, recs, floor) && Crash(s, after)
    requires Replays(crc, after.journal) && found.journal == Repair(crc, after.journal)
    requires found == Store(after.data, after.dirty, found.journal, |found.journal|)
    ensures Durable(crc, h, found, acc, next, |next|) && Crash(found, found)
    ensures forall b: nat :: Covers(recs[..floor], b) ==> Covers(next, b)
  {
    hide J.Effective, Covers, ReplayBytes, Journal, AllEncodable, Plain, Repair;
    var k := CrashReplays(crc, h, s, acc, recs, floor, after);
    next := recs[..k];
    PlainCount(h, next);
    JournalHasHeader(crc, h, next);
    assert next[..|next|] == next;
    forall b: nat ensures Covers(next, b) ==> Covers(recs, b) {
      CoversMore(recs, k, b);
    }
    forall b: nat ensures Covers(recs[..floor], b) ==> Covers(next, b) {
      assert next[..floor] == recs[..floor];
      CoversMore(next, floor, b);
    }
  }

  // ----- one session -----

  /**
   One session: its run, the disk state it stopped in, what the crash left, what recovery then
   found, and what it made of it.
   */
  datatype Life = Life(states: seq<Actor>, hists: seq<History>, events: seq<Event>, at: nat, after: Store, found: Store,
                       meta: Metadata, recovered: Recovered, minSplit: U64)

  ghost predicate Lives(crc: Checksum, hash: Hash, h: FileHeader, a: Actor, acc: History, l: Life, next: Actor,
                        acc': History)
  {
    && IsTrace(crc, hash, l.states, l.hists, l.events)
    && l.states[0] == a && l.hists[0] == acc
    && var n := |l.events|;
       && l.at < |l.states[n].writer.images|
       && Crash(l.states[n].writer.images[l.at], l.after) && Tidied(crc, hash, l.after, l.found)
       && Resumable(h, l.meta) && RecoveredAs(crc, h, l.meta, l.found, l.recovered)
       && var r := l.recovered;
          && r.files.part.Some? && r.files.journal.Some? && r.report.nextSequence <= U64_MAX
          && |l.hists[n]| == |r.report.owners|
          && next == Restart(h, r, l.minSplit) && acc' == Surviving(l.hists[n], r.report.owners)
  }

  /** A session as recovery, or creation, hands it over: healthy, and only the current disk seen. */
  ghost predicate Fresh(crc: Checksum, hash: Hash, h: FileHeader, a: Actor, acc: History, recs: seq<JournalRecord>)
  {
    && Healthy(crc, hash, h, a.writer, a.owners, acc, recs)
    && a.writer.images == [a.writer.store]
  }

  /** What may not be lost: complete bytes, with the value they were accepted with. */
  ghost predicate Keeps(m: Owners, acc: History, next: Owners, acc': History)
  {
    && |m| == |acc| == |next| == |acc'|
    && forall b :: 0 <= b < |m| && m[b] == Complete ==> next[b] == Complete && acc'[b] == acc[b]
  }

  lemma FreshSound(crc: Checksum, hash: Hash, h: FileHeader, a: Actor, acc: History, recs: seq<JournalRecord>)
    requires Fresh(crc, hash, h, a, acc, recs)
    ensures ActorSound(crc, hash, h, a, acc, recs, |recs|) && Current(a.writer)
  {
    hide Healthy;
  }

  ghost predicate NothingGranted(m: Owners) { forall b :: 0 <= b < |m| ==> !m[b].InProgress? }

  lemma Handover(crc: Checksum, hash: Hash, h: FileHeader, l: Life, s: Store, acc: History, base: seq<JournalRecord>)
    returns (recs: seq<JournalRecord>)
    requires Survivable(crc, h, s, acc, base) && Crash(s, l.after) && Tidied(crc, hash, l.after, l.found)
    requires Resumable(h, l.meta) && RecoveredAs(crc, h, l.meta, l.found, l.recovered)
    ensures l.recovered.files.part.Some? && l.recovered.files.journal.Some?
    ensures l.recovered.report.nextSequence <= U64_MAX && |acc| == |l.recovered.report.owners|
    ensures var a := Restart(h, l.recovered, l.minSplit);
            Healthy(crc, hash, h, a.writer, a.owners, Surviving(acc, a.owners), recs)
    ensures NothingGranted(l.recovered.report.owners)
    ensures forall b: nat :: Covers(base, b) ==> Covers(recs, b)
    ensures |acc| <= |l.after.data| && forall b :: 0 <= b < |acc| && l.recovered.report.owners[b] == Complete ==>
              acc[b] == Some(l.after.data[b])
  {
    hide Reconcile, Covers, Healthy, Journal, C.Compacts, Durable;
    var all :| base <= all && Durable(crc, h, s, acc, all, |base|);
    if l.found == l.after {
      recs := HandoverFrom(crc, hash, h, l, s, acc, all, |base|);
      assert all[..|base|] == base;
    } else {
      var next;
      if Replays(crc, l.after.journal) && l.found.journal == Repair(crc, l.after.journal) {
        next := MendedDurable(crc, h, s, acc, all, |base|, l.after, l.found);
      } else {
        var clock :| C.Compacts(crc, hash, l.after.journal, l.after.data, clock, l.found.journal);
        next := TidiedDurable(crc, hash, h, s, acc, all, |base|, l.after, l.found, clock);
      }
      assert all[..|base|] == base;
      recs := HandoverFrom(crc, hash, h, l, l.found, acc, next, |next|);
      assert next[..|next|] == next;
    }
  }

  lemma HandoverFrom(crc: Checksum, hash: Hash, h: FileHeader, l: Life, s: Store, acc: History, all: seq<JournalRecord>,
                     floor: nat) returns (recs: seq<JournalRecord>)
    requires Durable(crc, h, s, acc, all, floor) && floor <= |all| && Crash(s, l.found)
    requires Resumable(h, l.meta) && RecoveredAs(crc, h, l.meta, l.found, l.recovered)
    ensures l.recovered.files.part.Some? && l.recovered.files.journal.Some?
    ensures l.recovered.report.nextSequence <= U64_MAX && |acc| == |l.recovered.report.owners|
    ensures var a := Restart(h, l.recovered, l.minSplit);
            Healthy(crc, hash, h, a.writer, a.owners, Surviving(acc, a.owners), recs)
    ensures NothingGranted(l.recovered.report.owners)
    ensures forall b: nat :: Covers(all[..floor], b) ==> Covers(recs, b)
    ensures |acc| <= |l.found.data| && forall b :: 0 <= b < |acc| && l.recovered.report.owners[b] == Complete ==>
              acc[b] == Some(l.found.data[b])
  {
    hide Reconcile, Covers, Healthy, Journal, Plain;
    var k, r := CrashSafe(crc, h, s, acc, all, floor, l.found, l.meta);
    assert r == l.recovered;
    PlainCount(h, all[..k]);
    RestartHealthy(crc, hash, h, s, acc, all, floor, l.found, l.meta, l.minSplit, k, r);
    recs := all[..k];
    forall b: nat ensures Covers(all[..floor], b) ==> Covers(recs, b) {
      assert recs[..floor] == all[..floor];
      CoversMore(recs, floor, b);
    }
  }

  lemma PlainCount(h: FileHeader, recs: seq<JournalRecord>)
    requires Plain(h, recs)
    ensures |recs| <= U64_MAX && AllEncodable(recs)
  {
  }

  /**
   One session, stopped anywhere: nothing complete by the last moment `i` before the crash is
   lost, and the next session gets a healthy start with nothing granted.
   */
  lemma LifeSafe(crc: Checksum, hash: Hash, h: FileHeader, a: Actor, acc: History, l: Life, next: Actor,
                 acc': History, recs: seq<JournalRecord>, i: nat) returns (recs': seq<JournalRecord>)
    requires Fresh(crc, hash, h, a, acc, recs) && Lives(crc, hash, h, a, acc, l, next, acc')
    requires i <= |l.events| && |l.states[i].writer.images| <= l.at + 1
    ensures Fresh(crc, hash, h, next, acc', recs') && Keeps(l.states[i].owners, l.hists[i], next.owners, acc')
    ensures NothingGranted(next.owners) && Extends(l.hists[i], l.hists[|l.events|])
    ensures var m, final := l.recovered.report.owners, l.hists[|l.events|];
            |m| == |final| && |m| <= |l.after.data|
            && forall b :: 0 <= b < |m| && m[b] == Complete ==> final[b] == Some(l.after.data[b])
  {
    hide Sound, Survivable, Reconcile, Covers, Step, HistoryAfter, Healthy, Tidied, Visited;
    FreshSound(crc, hash, h, a, acc, recs);
    var mid, floor := RunSound(crc, hash, h, l.states, l.hists, l.events, 0, i, recs, |recs|);
    SinceSurvives(crc, hash, h, l.states, l.hists, l.events, i, mid, floor, l.at);
    var n := |l.events|;
    recs' := Handover(crc, hash, h, l, l.states[n].writer.images[l.at], l.hists[n], mid[..floor]);
    HandoverKeeps(crc, hash, h, l.states[i], l.hists[i], mid, floor, l.hists[n], next, acc', recs');
  }

  lemma HandoverKeeps(crc: Checksum, hash: Hash, h: FileHeader, a: Actor, acc: History, recs: seq<JournalRecord>,
                      floor: nat, final: History, next: Actor, acc': History, recs': seq<JournalRecord>)
    requires ActorSound(crc, hash, h, a, acc, recs, floor) && Extends(acc, final)
    requires Healthy(crc, hash, h, next.writer, next.owners, acc', recs')
    requires forall b: nat :: Covers(recs[..floor], b) ==> Covers(recs', b)
    requires |final| == |next.owners| && acc' == Surviving(final, next.owners)
    ensures Keeps(a.owners, acc, next.owners, acc')
  {
    hide Durable, Covers, StagedOk, Surviving, Sound, AcceptedOnce;
    CompleteInKept(crc, hash, h, a, acc, recs, floor);
    CompleteAccepted(crc, hash, h, a, acc, recs, floor);
  }

  /** Every disk state from the one current after event `i` on keeps what was synced by then. */
  lemma SinceSurvives(crc: Checksum, hash: Hash, h: FileHeader, states: seq<Actor>, hists: seq<History>,
                      events: seq<Event>, i: nat, recs: seq<JournalRecord>, floor: nat, at: nat)
    requires IsTrace(crc, hash, states, hists, events) && Current(states[0].writer) && i <= |events|
    requires ActorSound(crc, hash, h, states[i], hists[i], recs, floor)
    requires |states[i].writer.images| <= at + 1 && at < |states[|events|].writer.images|
    ensures Survivable(crc, h, states[|events|].writer.images[at], hists[|events|], recs[..floor])
    ensures Extends(hists[i], hists[|events|])
  {
    hide Sound, Survivable, Step, HistoryAfter;
    var n := |events|;
    var _, _ := RunSound(crc, hash, h, states, hists, events, i, n, recs, floor);
    RunCurrent(crc, hash, states, hists, events, i);
    var images := states[i].writer.images;
    if at + 1 == |images| {
      assert states[n].writer.images[at] == images[at] == states[i].writer.store;
      NowSurvives(crc, hash, h, states[i], hists[i], recs, floor);
      SurvivableWeakens(crc, h, states[i].writer.store, hists[i], hists[n], recs[..floor], recs[..floor]);
    }
  }

  lemma NowSurvives(crc: Checksum, hash: Hash, h: FileHeader, a: Actor, acc: History, recs: seq<JournalRecord>,
                    floor: nat)
    requires ActorSound(crc, hash, h, a, acc, recs, floor)
    ensures Survivable(crc, h, a.writer.store, acc, recs[..floor])
  {
    hide Durable, StagedOk, AcceptedOnce, CompleteIsCovered;
    assert recs[..floor] <= recs && |recs[..floor]| == floor;
  }

  /** What is complete has been accepted. */
  lemma CompleteAccepted(crc: Checksum, hash: Hash, h: FileHeader, a: Actor, acc: History, recs: seq<JournalRecord>,
                         floor: nat)
    requires ActorSound(crc, hash, h, a, acc, recs, floor)
    ensures |acc| == |a.owners| && forall b :: 0 <= b < |acc| && a.owners[b] == Complete ==> acc[b].Some?
  {
    hide Journal, Plain, StagedOk, Covers;
    CompleteInKept(crc, hash, h, a, acc, recs, floor);
    forall b | 0 <= b < |a.owners| && a.owners[b] == Complete ensures acc[b].Some? {
      CoversMore(recs, floor, b);
    }
  }

  /**
   Nothing acknowledged is lost: whatever the map calls complete after some command is complete
   again after a crash in the disk state of that moment or any later one, and every byte
   recovery calls complete holds the value accepted for it.
   */
  lemma AcknowledgedSurvives(crc: Checksum, hash: Hash, h: FileHeader, states: seq<Actor>, hists: seq<History>,
                             events: seq<Event>, recs: seq<JournalRecord>, i: nat, at: nat, after: Store,
                             meta: Metadata, r: Recovered)
    requires IsTrace(crc, hash, states, hists, events) && Fresh(crc, hash, h, states[0], hists[0], recs)
    requires i <= |events| && |states[i].writer.images| <= at + 1 && at < |states[|events|].writer.images|
    requires Crash(states[|events|].writer.images[at], after) && Resumable(h, meta)
    requires RecoveredAs(crc, h, meta, after, r)
    ensures |r.report.owners| == |states[i].owners| == |hists[|events|]| <= |after.data|
    ensures forall b :: 0 <= b < |r.report.owners| && states[i].owners[b] == Complete ==> r.report.owners[b] == Complete
    ensures forall b :: 0 <= b < |r.report.owners| && r.report.owners[b] == Complete ==>
              hists[|events|][b] == Some(after.data[b])
  {
    hide Sound, Durable, Reconcile, Covers, Step, HistoryAfter, Plain, Journal;
    var n := |events|;
    FreshSound(crc, hash, h, states[0], hists[0], recs);
    var mid, floor := RunSound(crc, hash, h, states, hists, events, 0, i, recs, |recs|);
    SinceSurvives(crc, hash, h, states, hists, events, i, mid, floor, at);
    var s := states[n].writer.images[at];
    var all :| mid[..floor] <= all && Durable(crc, h, s, hists[n], all, floor);
    var k, found := CrashSafe(crc, h, s, hists[n], all, floor, after, meta);
    assert found == r;
    CompleteInKept(crc, hash, h, states[i], hists[i], mid, floor);
    forall b | 0 <= b < |r.report.owners| && states[i].owners[b] == Complete
      ensures r.report.owners[b] == Complete
    {
      assert all[..k][..floor] == mid[..floor];
      CoversMore(all[..k], floor, b);
    }
  }

  lemma CompleteInKept(crc: Checksum, hash: Hash, h: FileHeader, a: Actor, acc: History, recs: seq<JournalRecord>,
                       floor: nat)
    requires ActorSound(crc, hash, h, a, acc, recs, floor)
    ensures |a.owners| == h.totalLength && CompleteIsCovered(a.owners, recs[..floor])
  {
    hide Durable, StagedOk, AcceptedOnce;
    assert recs[..|recs|] == recs;
  }

  // ----- any number of sessions -----

  ghost predicate Sessions(crc: Checksum, hash: Hash, h: FileHeader, starts: seq<Actor>, accs: seq<History>,
                           lives: seq<Life>)
  {
    && |starts| == |accs| == |lives| + 1
    && forall i {:trigger lives[i]} :: 0 <= i < |lives| ==>
         Lives(crc, hash, h, starts[i], accs[i], lives[i], starts[i + 1], accs[i + 1])
  }

  /** Over any number of crash, recover and continue rounds a complete byte keeps its value. */
  lemma {:induction false} SessionsSafe(crc: Checksum, hash: Hash, h: FileHeader, starts: seq<Actor>,
                                        accs: seq<History>, lives: seq<Life>, recs: seq<JournalRecord>, i: nat, j: nat)
    returns (recs': seq<JournalRecord>)
    requires Sessions(crc, hash, h, starts, accs, lives) && i <= j <= |lives|
    requires Fresh(crc, hash, h, starts[i], accs[i], recs)
    ensures Fresh(crc, hash, h, starts[j], accs[j], recs')
    ensures Keeps(starts[i].owners, accs[i], starts[j].owners, accs[j])
    ensures OnDiskAsAccepted(starts[j], accs[j])
    decreases j
  {
    hide Healthy, Tidied, IsTrace, Restart, RecoveredAs, Resumable;
    if i == j {
      recs' := recs;
    } else {
      var mid := SessionsSafe(crc, hash, h, starts, accs, lives, recs, i, j - 1);
      var l := lives[j - 1];
      StartsInside(crc, hash, h, starts[j - 1], accs[j - 1], mid, l, starts[j], accs[j]);
      recs' := LifeSafe(crc, hash, h, starts[j - 1], accs[j - 1], l, starts[j], accs[j], mid, 0);
    }
    HealthyBytes(crc, hash, h, starts[i], accs[i], recs);
    HealthyBytes(crc, hash, h, starts[j], accs[j], recs');
  }

  /** Wherever a session stops, its start came before. */
  lemma StartsInside(crc: Checksum, hash: Hash, h: FileHeader, a: Actor, acc: History, recs: seq<JournalRecord>,
                     l: Life, next: Actor, acc': History)
    requires Fresh(crc, hash, h, a, acc, recs) && Lives(crc, hash, h, a, acc, l, next, acc')
    ensures |l.states| > 0 && |l.hists| > 0 && l.states[0] == a && l.hists[0] == acc
    ensures |l.states[0].writer.images| <= l.at + 1
  {
    hide Healthy, Tidied, RecoveredAs, Resumable;
  }

  /**
   A byte complete at any moment of any session, however soon after it the crash comes, is
   complete at the start of every later session, with the value it was accepted with.
   */
  lemma CompleteForever(crc: Checksum, hash: Hash, h: FileHeader, starts: seq<Actor>, accs: seq<History>,
                        lives: seq<Life>, recs: seq<JournalRecord>, k: nat, i: nat, j: nat)
    requires Sessions(crc, hash, h, starts, accs, lives) && Fresh(crc, hash, h, starts[0], accs[0], recs)
    requires k < j <= |lives|
    requires var l := lives[k];
             i <= |l.events| && |l.states| == |l.hists| == |l.events| + 1 && |l.states[i].writer.images| <= l.at + 1
    ensures Keeps(lives[k].states[i].owners, lives[k].hists[i], starts[j].owners, accs[j])
    ensures OnDiskAsAccepted(starts[j], accs[j])
  {
    hide Lives, Healthy;
    var first := SessionsSafe(crc, hash, h, starts, accs, lives, recs, 0, k);
    var l := lives[k];
    var mid := LifeSafe(crc, hash, h, starts[k], accs[k], l, starts[k + 1], accs[k + 1], first, i);
    var _ := SessionsSafe(crc, hash, h, starts, accs, lives, mid, k + 1, j);
  }

  /** Every complete byte is on disk with the value accepted for it. */
  ghost predicate OnDiskAsAccepted(a: Actor, acc: History)
  {
    && |acc| == |a.owners| <= |a.writer.store.data|
    && forall b :: 0 <= b < |acc| && a.owners[b] == Complete ==> acc[b] == Some(a.writer.store.data[b])
  }

  lemma HealthyBytes(crc: Checksum, hash: Hash, h: FileHeader, a: Actor, acc: History, recs: seq<JournalRecord>)
    requires Healthy(crc, hash, h, a.writer, a.owners, acc, recs)
    ensures OnDiskAsAccepted(a, acc)
  {
    hide StagedOk, Covers, Plain, Journal;
  }

  /** The first session: a new journal holding only its header, and nothing accepted yet. */
  lemma FirstSession(crc: Checksum, hash: Hash, h: FileHeader, data: seq<Byte>, minSplit: U64)
    requires |data| >= h.totalLength
    ensures var s := Store(data, seq(|data|, _ => false), EncodeHeader(crc, h), HEADER_LEN);
            && Create(h.totalLength, h.totalLength, s, 0).Ok?
            && var w := Create(h.totalLength, h.totalLength, s, 0).value;
               Fresh(crc, hash, h, Actor(w, seq(h.totalLength, _ => Pending), minSplit, false),
                     seq(h.totalLength, _ => None), [])
  {
    hide EncodeHeader;
    assert EncodeAll(crc, [], 0) == [];
    assert Journal(crc, h, []) == EncodeHeader(crc, h);
    forall b ensures !Covers([], b) { NothingCovered(b); }
  }
}
