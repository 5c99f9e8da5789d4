/**
 What the commit order guarantees.

 `Durable` describes one disk state: its journal is a byte prefix of a well-formed journal all of
 whose blocks are clean on disk and hold the bytes that were accepted, and the first `floor`
 records of it are synced. Every disk state a flush or a stage passes through is shown to be
 durable, whatever fails and wherever the machine stops.
 */
module CommitOrder {
  import opened Base
  import opened Ownership
  import opened JournalFormat
  import opened Replay
  import opened Storage
  import opened Writer

  /** The byte accepted for each offset, if one was. */
  type History = seq<Option<Byte>>

  // ----- what a writer's journal holds -----

  predicate Holds(r: JournalRecord, b: nat)
  {
    r.BlockComplete? && r.offset <= b < r.offset + r.len
  }

  ghost predicate Covers(recs: seq<JournalRecord>, b: nat)
  {
    exists i :: 0 <= i < |recs| && Holds(recs[i], b)
  }

  predicate PlainRecord(h: FileHeader, r: JournalRecord)
  {
    match r
    case BlockComplete(offset, len, _) => len > 0 && offset + len <= h.totalLength
    case Checkpoint(_, _) => true
    case IdentityUpdate(_) => Encodable(r)
    case _ => false
  }

  predicate Apart(a: JournalRecord, b: JournalRecord)
  {
    a.BlockComplete? && b.BlockComplete? ==> a.offset + a.len <= b.offset || b.offset + b.len <= a.offset
  }

  /** No truncation, no seal, non-empty disjoint blocks inside the representation. */
  ghost predicate Plain(h: FileHeader, recs: seq<JournalRecord>)
  {
    && |recs| <= U64_MAX && AllEncodable(recs)
    && (forall i :: 0 <= i < |recs| ==> PlainRecord(h, recs[i]))
    && (forall i, j :: 0 <= i < j < |recs| ==> Apart(recs[i], recs[j]))
  }

  ghost predicate Durable(crc: Checksum, h: FileHeader, s: Store, acc: History, recs: seq<JournalRecord>, floor: nat)
  {
    && ValidStore(s) && Plain(h, recs) && h.totalLength <= |s.data| && |acc| == h.totalLength
    && HEADER_LEN <= |s.journal| && s.journal <= Journal(crc, h, recs)
    && floor <= |recs| && PrefixSynced(crc, h, s, recs, floor)
    && CleanAccepted(s, acc, recs)
  }

  /** The first `floor` records have been through a journal sync. */
  ghost predicate PrefixSynced(crc: Checksum, h: FileHeader, s: Store, recs: seq<JournalRecord>, floor: nat)
    requires floor <= |recs| && AllEncodable(recs) && |recs| <= U64_MAX
  {
    |Journal(crc, h, recs[..floor])| <= s.synced
  }

  /** Every byte of every block is synced and is the byte that was accepted there. */
  ghost predicate CleanAccepted(s: Store, acc: History, recs: seq<JournalRecord>)
    requires |acc| <= |s.data| == |s.dirty|
  {
    forall b :: 0 <= b < |acc| && Covers(recs, b) ==> !s.dirty[b] && acc[b] == Some(s.data[b])
  }

  ghost predicate AllDurable(crc: Checksum, h: FileHeader, images: seq<Store>, acc: History,
                             recs: seq<JournalRecord>, floor: nat)
  {
    forall i :: 0 <= i < |images| ==> Durable(crc, h, images[i], acc, recs, floor)
  }

  // ----- the writer's invariant -----

  predicate InBlock(b: StagedBlock, at: nat) { b.lo <= at < b.hi }

  ghost predicate InStaged(staged: seq<StagedBlock>, at: nat)
  {
    exists i :: 0 <= i < |staged| && InBlock(staged[i], at)
  }

  /** A staged block is non-empty, wholly owned, and on disk as it was accepted. */
  ghost predicate BlockStaged(hash: Hash, s: Store, m: Owners, acc: History, b: StagedBlock)
    requires |m| == |acc| <= |s.data|
  {
    && b.lo < b.hi <= |m| && b.len == b.hi - b.lo
    && AllAre(m, b.lo, b.hi, InProgress(b.worker))
    && b.blake3 == hash(s.data[b.lo..b.hi])
    && (forall at :: b.lo <= at < b.hi ==> acc[at] == Some(s.data[at]))
  }

  ghost predicate StagedOk(hash: Hash, s: Store, m: Owners, acc: History, staged: seq<StagedBlock>)
    requires |m| == |acc| <= |s.data|
  {
    && (forall i :: 0 <= i < |staged| ==> BlockStaged(hash, s, m, acc, staged[i]))
    && (forall i, j :: 0 <= i < j < |staged| ==> staged[i].hi <= staged[j].lo || staged[j].hi <= staged[i].lo)
  }

  /** The map says complete exactly where the journal says so. */
  ghost predicate CompleteIsCovered(m: Owners, recs: seq<JournalRecord>)
  {
    forall b :: 0 <= b < |m| ==> (m[b] == Complete <==> Covers(recs, b))
  }

  /** A byte has been accepted exactly when it is complete or waiting in the batch. */
  ghost predicate AcceptedOnce(m: Owners, staged: seq<StagedBlock>, acc: History)
    requires |acc| == |m|
  {
    forall b :: 0 <= b < |m| ==> (acc[b].Some? <==> m[b] == Complete || InStaged(staged, b))
  }

  ghost predicate Healthy(crc: Checksum, hash: Hash, h: FileHeader, w: Writer, m: Owners, acc: History,
                          recs: seq<JournalRecord>)
  {
    && !w.poisoned && |m| == |acc| == w.totalLength == h.totalLength
    && Durable(crc, h, w.store, acc, recs, |recs|)
    && w.store.journal == Journal(crc, h, recs) && w.nextSequence == |recs|
    && CompleteIsCovered(m, recs)
    && StagedOk(hash, w.store, m, acc, w.staged)
    && AcceptedOnce(m, w.staged, acc)
  }

  /** After a failure nothing more is accepted, and what is on disk stays durable. */
  ghost predicate Broken(crc: Checksum, h: FileHeader, w: Writer, m: Owners, acc: History,
                         recs: seq<JournalRecord>, floor: nat)
  {
    && w.poisoned && |m| == |acc| == w.totalLength == h.totalLength
    && Durable(crc, h, w.store, acc, recs, floor)
    && CompleteIsCovered(m, recs[..floor])
  }

  // ----- journals and their prefixes -----

  lemma JournalConcat(crc: Checksum, h: FileHeader, a: seq<JournalRecord>, b: seq<JournalRecord>)
    requires AllEncodable(a) && AllEncodable(b) && |a| + |b| <= U64_MAX
    ensures AllEncodable(a + b)
    ensures Journal(crc, h, a + b) == Journal(crc, h, a) + EncodeAll(crc, b, |a|)
  {
    hide EncodeHeader, EncodeAll, Encodable, PayloadOf;
    EncodeAllConcat(crc, a, b, 0);
  }

  lemma JournalPrefix(crc: Checksum, h: FileHeader, a: seq<JournalRecord>, b: seq<JournalRecord>, n: nat)
    requires AllEncodable(a) && AllEncodable(b) && |a| + |b| <= U64_MAX && n <= |b|
    ensures AllEncodable(a + b) && AllEncodable(b[..n])
    ensures Journal(crc, h, a) + EncodeAll(crc, b[..n], |a|) <= Journal(crc, h, a + b)
  {
    hide EncodeHeader, EncodeAll, Journal, Encodable, PayloadOf;
    JournalConcat(crc, h, a, b);
    assert b[..n] + b[n..] == b;
    EncodeAllConcat(crc, b[..n], b[n..], |a|);
    ConcatPrefix(Journal(crc, h, a), EncodeAll(crc, b[..n], |a|), EncodeAll(crc, b[n..], |a| + n));
  }

  lemma ConcatPrefix(a: seq<Byte>, b: seq<Byte>, c: seq<Byte>)
    ensures a + b <= a + (b + c)
  {
  }

  lemma ConcatTorn(a: seq<Byte>, b: seq<Byte>, c: seq<Byte>, n: nat, whole: seq<Byte>)
    requires n <= |c| && a + (b + c) <= whole
    ensures a + b + c[..n] <= whole
  {
    assert a + b + c[..n] == (a + (b + c))[..|a| + |b| + n];
  }

  lemma TornPrefix(crc: Checksum, h: FileHeader, a: seq<JournalRecord>, b: seq<JournalRecord>, n: nat, torn: nat)
    requires AllEncodable(a) && AllEncodable(b) && |a| + |b| <= U64_MAX && n < |b|
    requires torn <= |Frame(crc, |a| + n, b[n])|
    ensures AllEncodable(a + b) && AllEncodable(b[..n])
    ensures Journal(crc, h, a) + EncodeAll(crc, b[..n], |a|) + Frame(crc, |a| + n, b[n])[..torn]
            <= Journal(crc, h, a + b)
  {
    hide EncodeHeader, EncodeAll, Journal, Frame, Encodable, PayloadOf;
    JournalPrefix(crc, h, a, b, n + 1);
    assert b[..n + 1] == b[..n] + [b[n]];
    EncodeAllConcat(crc, b[..n], [b[n]], |a|);
    EncodeOne(crc, b[n], |a| + n);
    ConcatTorn(Journal(crc, h, a), EncodeAll(crc, b[..n], |a|), Frame(crc, |a| + n, b[n]), torn,
               Journal(crc, h, a + b));
  }

  // ----- extending the records of a batch -----

  lemma CoversConcat(a: seq<JournalRecord>, b: seq<JournalRecord>, at: nat)
    ensures Covers(a + b, at) <==> Covers(a, at) || Covers(b, at)
  {
    var c := a + b;
    if i :| 0 <= i < |a| && Holds(a[i], at) { assert Holds(c[i], at); }
    if i :| 0 <= i < |b| && Holds(b[i], at) { assert Holds(c[|a| + i], at); }
  }

  lemma BatchCovers(staged: seq<StagedBlock>, at: nat)
    requires forall i :: 0 <= i < |staged| ==> staged[i].len == staged[i].hi - staged[i].lo
    ensures Covers(RecordsFor(staged), at) <==> InStaged(staged, at)
  {
    var r := RecordsFor(staged);
    forall i | 0 <= i < |staged| ensures Holds(r[i], at) <==> InBlock(staged[i], at) {
    }
  }

  /** Appending the batch keeps the journal plain: staged blocks avoid everything complete. */
  lemma BatchPlain(hash: Hash, h: FileHeader, s: Store, m: Owners, acc: History,
                   staged: seq<StagedBlock>, recs: seq<JournalRecord>)
    requires |m| == |acc| == h.totalLength <= |s.data|
    requires Plain(h, recs) && |recs| + |staged| <= U64_MAX
    requires StagedOk(hash, s, m, acc, staged) && CompleteIsCovered(m, recs)
    ensures Plain(h, recs + RecordsFor(staged))
  {
    var batch := RecordsFor(staged);
    var all := recs + batch;
    forall i, j | 0 <= i < j < |all| ensures Apart(all[i], all[j]) {
      if i < |recs| <= j {
        StagedApart(hash, s, m, acc, staged[j - |recs|], recs, i);
      } else if |recs| <= i {
        assert all[i] == batch[i - |recs|] && all[j] == batch[j - |recs|];
      }
    }
    forall i | 0 <= i < |all| ensures PlainRecord(h, all[i]) && Encodable(all[i]) {
      if i >= |recs| {
        assert BlockStaged(hash, s, m, acc, staged[i - |recs|]);
      }
    }
  }

  lemma StagedApart(hash: Hash, s: Store, m: Owners, acc: History, b: StagedBlock, recs: seq<JournalRecord>, i: nat)
    requires |m| == |acc| <= |s.data| && i < |recs|
    requires BlockStaged(hash, s, m, acc, b) && CompleteIsCovered(m, recs)
    requires recs[i].BlockComplete? ==> recs[i].len > 0
    ensures Apart(recs[i], RecordOf(b))
  {
    if recs[i].BlockComplete? {
      var at := Max(recs[i].offset, b.lo);
      assert Holds(recs[i], at) ==> Covers(recs, at);
      assert Holds(recs[i], at) ==> !InBlock(b, at);
    }
  }

  // ----- flush: the map -----

  lemma StagedPrefix(hash: Hash, s: Store, m: Owners, acc: History, staged: seq<StagedBlock>, n: nat)
    requires |m| == |acc| <= |s.data| && StagedOk(hash, s, m, acc, staged) && n <= |staged|
    ensures StagedOk(hash, s, m, acc, staged[..n])
  {
    hide BlockStaged;
  }

  /** Completing a whole batch is accepted and completes exactly its bytes. */
  lemma {:induction false} CompleteAllStaged(hash: Hash, s: Store, m: Owners, acc: History, staged: seq<StagedBlock>)
    requires |m| == |acc| <= |s.data| && |m| <= U64_MAX && StagedOk(hash, s, m, acc, staged)
    ensures CompleteAll(m, staged).Ok?
    ensures var next := CompleteAll(m, staged).value;
            forall b :: 0 <= b < |m| ==> next[b] == if InStaged(staged, b) then Complete else m[b]
  {
    if staged != [] {
      var n := |staged| - 1;
      StagedPrefix(hash, s, m, acc, staged, n);
      CompleteAllStaged(hash, s, m, acc, staged[..n]);
      CompleteLast(hash, s, m, acc, staged, CompleteAll(m, staged[..n]).value);
    }
  }

  lemma CompleteLast(hash: Hash, s: Store, m: Owners, acc: History, staged: seq<StagedBlock>, before: Owners)
    requires |m| == |acc| <= |s.data| && |m| <= U64_MAX && StagedOk(hash, s, m, acc, staged) && staged != []
    requires |before| == |m|
    requires forall b :: 0 <= b < |m| ==>
               before[b] == if InStaged(staged[..|staged| - 1], b) then Complete else m[b]
    ensures var l := staged[|staged| - 1];
            && CompleteRange(before, l.lo, l.hi, l.worker).Ok?
            && var next := CompleteRange(before, l.lo, l.hi, l.worker).value;
               forall b :: 0 <= b < |m| ==> next[b] == if InStaged(staged, b) then Complete else m[b]
  {
    var n := |staged| - 1;
    var l := staged[n];
    assert BlockStaged(hash, s, m, acc, l);
    forall b | 0 <= b < |m| ensures InStaged(staged, b) <==> InStaged(staged[..n], b) || InBlock(l, b) {
      InStagedLast(staged, b);
    }
    forall b | l.lo <= b < l.hi ensures !InStaged(staged[..n], b) {
    }
  }

  lemma InStagedLast(staged: seq<StagedBlock>, b: nat)
    requires staged != []
    ensures InStaged(staged, b) <==>
            InStaged(staged[..|staged| - 1], b) || InBlock(staged[|staged| - 1], b)
  {
    var n := |staged| - 1;
    if InStaged(staged[..n], b) {
      var i :| 0 <= i < n && InBlock(staged[..n][i], b);
      assert InBlock(staged[i], b);
    }
    if i :| 0 <= i < |staged| && InBlock(staged[i], b) {
      assert i < n ==> InBlock(staged[..n][i], b);
    }
  }

  // ----- flush: the disk -----

  /** Once the data is synced the whole batch may be journalled. */
  lemma CleanBatch(crc: Checksum, hash: Hash, h: FileHeader, w: Writer, m: Owners, acc: History,
                   recs: seq<JournalRecord>)
    requires Healthy(crc, hash, h, w, m, acc, recs) && |recs| + |w.staged| <= U64_MAX
    ensures Durable(crc, h, SyncData(w.store), acc, recs + RecordsFor(w.staged), |recs|)
  {
    hide Journal, StagedOk, Encodable, CleanAccepted, AcceptedOnce;
    var batch := RecordsFor(w.staged);
    var all := recs + batch;
    BatchPlain(hash, h, w.store, m, acc, w.staged, recs);
    JournalConcat(crc, h, recs, batch);
    assert all[..|recs|] == recs && recs[..|recs|] == recs;
    BatchAccepted(hash, w.store, m, acc, w.staged, recs);
  }

  lemma BatchAccepted(hash: Hash, s: Store, m: Owners, acc: History, staged: seq<StagedBlock>, recs: seq<JournalRecord>)
    requires |m| == |acc| <= |s.data| == |s.dirty|
    requires CleanAccepted(s, acc, recs) && StagedOk(hash, s, m, acc, staged)
    ensures CleanAccepted(SyncData(s), acc, recs + RecordsFor(staged))
  {
    hide StagedOk, Covers;
    var batch := RecordsFor(staged);
    forall b | 0 <= b < |acc| && Covers(recs + batch, b) ensures acc[b] == Some(s.data[b]) {
      CoversConcat(recs, batch, b);
      if !Covers(recs, b) {
        StagedLengths(hash, s, m, acc, staged);
        BatchCovers(staged, b);
        StagedByte(hash, s, m, acc, staged, b);
      }
    }
  }

  lemma StagedLengths(hash: Hash, s: Store, m: Owners, acc: History, staged: seq<StagedBlock>)
    requires |m| == |acc| <= |s.data| && StagedOk(hash, s, m, acc, staged)
    ensures forall i :: 0 <= i < |staged| ==> staged[i].len == staged[i].hi - staged[i].lo
  {
  }

  lemma StagedByte(hash: Hash, s: Store, m: Owners, acc: History, staged: seq<StagedBlock>, b: nat)
    requires |m| == |acc| <= |s.data| && StagedOk(hash, s, m, acc, staged) && InStaged(staged, b)
    ensures b < |acc| && acc[b] == Some(s.data[b]) && m[b].InProgress?
  {
    var i :| 0 <= i < |staged| && InBlock(staged[i], b);
    assert BlockStaged(hash, s, m, acc, staged[i]);
  }

  /** A store that differs only in how much of the same journal it holds is as durable. */
  lemma LongerJournal(crc: Checksum, h: FileHeader, s: Store, acc: History, recs: seq<JournalRecord>, floor: nat,
                      journal: seq<Byte>)
    requires Durable(crc, h, s, acc, recs, floor)
    requires s.journal <= journal && journal <= Journal(crc, h, recs)
    ensures Durable(crc, h, s.(journal := journal), acc, recs, floor)
  {
    hide Journal, Plain;
  }

  lemma AppendDurable(crc: Checksum, h: FileHeader, s: Store, acc: History, recs: seq<JournalRecord>,
                      batch: seq<JournalRecord>, n: nat)
    requires AllEncodable(recs) && AllEncodable(batch) && |recs| + |batch| <= U64_MAX && n <= |batch|
    requires s.journal == Journal(crc, h, recs)
    requires Durable(crc, h, s, acc, recs + batch, |recs|)
    ensures Durable(crc, h, Appended(crc, s, batch, |recs|, n), acc, recs + batch, |recs|)
  {
    hide Journal, EncodeAll, Durable, Encodable;
    JournalPrefix(crc, h, recs, batch, n);
    LongerJournal(crc, h, s, acc, recs + batch, |recs|, s.journal + EncodeAll(crc, batch[..n], |recs|));
  }

  lemma TornDurable(crc: Checksum, h: FileHeader, s: Store, acc: History, recs: seq<JournalRecord>,
                    batch: seq<JournalRecord>, n: nat, torn: nat)
    requires AllEncodable(recs) && AllEncodable(batch) && |recs| + |batch| <= U64_MAX && n < |batch|
    requires s.journal == Journal(crc, h, recs)
    requires Durable(crc, h, s, acc, recs + batch, |recs|)
    ensures Durable(crc, h, TornAppend(crc, s, batch, |recs|, n, torn), acc, recs + batch, |recs|)
  {
    hide Journal, EncodeAll, Durable, Encodable, Frame;
    var frame := Frame(crc, |recs| + n, batch[n]);
    TornPrefix(crc, h, recs, batch, n, Min(torn, |frame|));
    LongerJournal(crc, h, s, acc, recs + batch, |recs|,
                  s.journal + EncodeAll(crc, batch[..n], |recs|) + frame[..Min(torn, |frame|)]);
  }

  lemma SealedBatch(crc: Checksum, h: FileHeader, s: Store, acc: History, recs: seq<JournalRecord>,
                    batch: seq<JournalRecord>)
    requires AllEncodable(recs) && AllEncodable(batch) && |recs| + |batch| <= U64_MAX
    requires s.journal == Journal(crc, h, recs)
    requires Durable(crc, h, s, acc, recs + batch, |recs|)
    ensures var done := SyncJournal(Appended(crc, s, batch, |recs|, |batch|));
            && done.journal == Journal(crc, h, recs + batch)
            && Durable(crc, h, done, acc, recs + batch, |recs| + |batch|)
            && Durable(crc, h, done, acc, recs + batch, |recs|)
  {
    hide Journal, EncodeAll, Encodable, Plain;
    var all := recs + batch;
    AppendDurable(crc, h, s, acc, recs, batch, |batch|);
    JournalConcat(crc, h, recs, batch);
    assert batch[..|batch|] == batch && all[..|all|] == all && all[..|recs|] == recs;
  }

  /** Every disk state of a commit is durable, and a finished commit has synced the batch. */
  lemma CommitDurable(crc: Checksum, h: FileHeader, s: Store, acc: History, recs: seq<JournalRecord>,
                      batch: seq<JournalRecord>, fault: FlushFault)
    requires AllEncodable(recs) && AllEncodable(batch) && |recs| + |batch| <= U64_MAX
    requires s.journal == Journal(crc, h, recs)
    requires Durable(crc, h, SyncData(s), acc, recs + batch, |recs|)
    ensures var c := CommitBatch(crc, s, batch, |recs|, fault);
            && AllDurable(crc, h, c.images, acc, recs + batch, |recs|)
            && (c.done ==>
                  var last := c.images[|c.images| - 1];
                  && last.journal == Journal(crc, h, recs + batch)
                  && last.data == s.data
                  && Durable(crc, h, last, acc, recs + batch, |recs| + |batch|))
  {
    hide Journal, EncodeAll, Encodable, Durable, TornAppend, Appended;
    var clean := SyncData(s);
    forall n | 0 <= n <= |batch|
      ensures Durable(crc, h, Appended(crc, clean, batch, |recs|, n), acc, recs + batch, |recs|)
    {
      AppendDurable(crc, h, clean, acc, recs, batch, n);
    }
    if fault.AppendFails? && fault.index < |batch| {
      TornDurable(crc, h, clean, acc, recs, batch, fault.index, fault.torn);
    }
    SealedBatch(crc, h, clean, acc, recs, batch);
    AppendedData(crc, clean, batch, |recs|);
  }

  lemma AppendedData(crc: Checksum, s: Store, batch: seq<JournalRecord>, from: nat)
    requires AllEncodable(batch) && from + |batch| <= U64_MAX
    ensures Appended(crc, s, batch, from, |batch|).data == s.data
  {
    hide EncodeAll;
  }

  // ----- flush as a whole -----

  /** Either still accepting work with everything journalled synced, or stopped for good. */
  ghost predicate Sound(crc: Checksum, hash: Hash, h: FileHeader, w: Writer, m: Owners, acc: History,
                        recs: seq<JournalRecord>, floor: nat)
  {
    || (floor == |recs| && Healthy(crc, hash, h, w, m, acc, recs))
    || Broken(crc, h, w, m, acc, recs, floor)
  }

  /** From this disk state recovery finds every record of `base`, and only accepted bytes. */
  ghost predicate Survivable(crc: Checksum, h: FileHeader, s: Store, acc: History, base: seq<JournalRecord>)
  {
    exists recs :: base <= recs && Durable(crc, h, s, acc, recs, |base|)
  }

  /** Every disk state visited since `before` is survivable. */
  ghost predicate Visited(crc: Checksum, h: FileHeader, before: Writer, after: Writer, acc: History,
                          base: seq<JournalRecord>)
  {
    && before.images <= after.images
    && forall i :: |before.images| <= i < |after.images| ==> Survivable(crc, h, after.images[i], acc, base)
  }

  lemma DurableSurvives(crc: Checksum, h: FileHeader, before: Writer, after: Writer, acc: History,
                        base: seq<JournalRecord>, recs: seq<JournalRecord>, images: seq<Store>)
    requires after.images == before.images + images && base <= recs
    requires AllDurable(crc, h, images, acc, recs, |base|)
    ensures Visited(crc, h, before, after, acc, base)
  {
    hide Durable;
    forall i | |before.images| <= i < |after.images| ensures Survivable(crc, h, after.images[i], acc, base) {
      assert after.images[i] == images[i - |before.images|];
      assert Durable(crc, h, after.images[i], acc, recs, |base|);
    }
  }

  /** The records journalled by the time a flush returns. */
  function FlushRecords(w: Writer, recs: seq<JournalRecord>, fault: FlushFault): seq<JournalRecord>
  {
    if w.nextSequence + |w.staged| > U64_MAX || fault == DataSyncFails then recs
    else recs + RecordsFor(w.staged)
  }

  lemma FlushMap(hash: Hash, s: Store, m: Owners, acc: History, staged: seq<StagedBlock>, recs: seq<JournalRecord>)
    requires |m| == |acc| <= |s.data| && |m| <= U64_MAX
    requires StagedOk(hash, s, m, acc, staged) && CompleteIsCovered(m, recs) && AcceptedOnce(m, staged, acc)
    ensures CompleteAll(m, staged).Ok?
    ensures var next := CompleteAll(m, staged).value;
            && CompleteIsCovered(next, recs + RecordsFor(staged))
            && AcceptedOnce(next, [], acc)
            && forall b :: 0 <= b < |m| ==> (next[b] == m[b] || (m[b].InProgress? && next[b] == Complete))
  {
    hide Covers, StagedOk;
    CompleteAllStaged(hash, s, m, acc, staged);
    StagedLengths(hash, s, m, acc, staged);
    var next := CompleteAll(m, staged).value;
    forall b | 0 <= b < |m|
      ensures next[b] == Complete <==> Covers(recs + RecordsFor(staged), b)
      ensures next[b] == m[b] || (m[b].InProgress? && next[b] == Complete)
    {
      CoversConcat(recs, RecordsFor(staged), b);
      BatchCovers(staged, b);
      if InStaged(staged, b) {
        StagedByte(hash, s, m, acc, staged, b);
      }
    }
  }

  lemma NothingStaged(hash: Hash, s: Store, m: Owners, acc: History)
    requires |m| == |acc| <= |s.data|
    ensures StagedOk(hash, s, m, acc, [])
  {
  }

  /** A healthy writer's flush commits its batch, runs out of sequence numbers, or stops for good. */
  lemma FlushSound(crc: Checksum, hash: Hash, h: FileHeader, w: Writer, m: Owners, acc: History,
                   recs: seq<JournalRecord>, fault: FlushFault)
    requires Healthy(crc, hash, h, w, m, acc, recs)
    ensures var o := Flush(crc, w, m, fault);
            var recs' := FlushRecords(w, recs, fault);
            && Visited(crc, h, w, o.writer, acc, recs)
            && (o.result.Ok? ==> Healthy(crc, hash, h, o.writer, o.owners, acc, recs') && o.writer.staged == [])
            && (o.result == Err(SequenceExhausted) ==> o.writer == w && o.owners == m && recs' == recs)
            && (o.result.Err? && o.result.error != SequenceExhausted ==>
                  o.result.error == Io && o.owners == m && Broken(crc, h, o.writer, m, acc, recs', |recs|))
  {
    hide Journal, CommitBatch, Encodable, CompleteAll, AcceptedOnce, Durable, CompleteIsCovered, StagedOk;
    assert recs + RecordsFor([]) == recs;
    HealthyParts(crc, hash, h, w, m, acc, recs);
    FlushMap(hash, w.store, m, acc, w.staged, recs);
    if w.staged != [] && w.nextSequence + |w.staged| <= U64_MAX {
      if fault == DataSyncFails {
        UnsyncedBroken(crc, hash, h, w, m, acc, recs);
      } else {
        CommitSound(crc, hash, h, w, m, acc, recs, fault);
      }
    }
  }

  /** A failed data sync changes nothing on disk. */
  lemma UnsyncedBroken(crc: Checksum, hash: Hash, h: FileHeader, w: Writer, m: Owners, acc: History,
                       recs: seq<JournalRecord>)
    requires Healthy(crc, hash, h, w, m, acc, recs)
    ensures Broken(crc, h, w.(poisoned := true), m, acc, recs, |recs|)
    ensures forall s: Store, b: seq<JournalRecord>, n: nat ::
              AllEncodable(b) && n + |b| <= U64_MAX ==>
                CommitBatch(crc, s, b, n, DataSyncFails) == Commit([], false)
  {
    hide Journal, Encodable, Durable, StagedOk;
    assert recs[..|recs|] == recs;
  }

  lemma CommitSound(crc: Checksum, hash: Hash, h: FileHeader, w: Writer, m: Owners, acc: History,
                    recs: seq<JournalRecord>, fault: FlushFault)
    requires Healthy(crc, hash, h, w, m, acc, recs) && fault != DataSyncFails
    requires w.staged != [] && w.nextSequence + |w.staged| <= U64_MAX && |m| <= U64_MAX
    ensures var o := Flush(crc, w, m, fault);
            var all := recs + RecordsFor(w.staged);
            && Visited(crc, h, w, o.writer, acc, recs)
            && (o.result.Ok? ==> Healthy(crc, hash, h, o.writer, o.owners, acc, all) && o.writer.staged == [])
            && (o.result.Err? ==> o.result.error == Io && o.owners == m
                                  && Broken(crc, h, o.writer, m, acc, all, |recs|))
  {
    hide Journal, CommitBatch, Encodable, CompleteAll, AcceptedOnce, Durable, CompleteIsCovered, StagedOk;
    HealthyParts(crc, hash, h, w, m, acc, recs);
    var batch := RecordsFor(w.staged);
    var all := recs + batch;
    CleanBatch(crc, hash, h, w, m, acc, recs);
    CommitDurable(crc, h, w.store, acc, recs, batch, fault);
    FlushMap(hash, w.store, m, acc, w.staged, recs);
    var c := CommitBatch(crc, w.store, batch, |recs|, fault);
    CommitVisits(crc, w.store, batch, |recs|, fault);
    var last := c.images[|c.images| - 1];
    assert all[..|recs|] == recs;
    DurableSurvives(crc, h, w, Visit(w, c.images), acc, recs, all, c.images);
    NothingStaged(hash, last, CompleteAll(m, w.staged).value, acc);
  }

  lemma CommitVisits(crc: Checksum, s: Store, recs: seq<JournalRecord>, from: nat, fault: FlushFault)
    requires AllEncodable(recs) && from + |recs| <= U64_MAX && fault != DataSyncFails
    ensures var c := CommitBatch(crc, s, recs, from, fault);
            c.images != [] && c.images[|c.images| - 1].data == s.data
  {
    hide EncodeAll, Encodable, Frame;
  }

  lemma HealthyParts(crc: Checksum, hash: Hash, h: FileHeader, w: Writer, m: Owners, acc: History,
                     recs: seq<JournalRecord>)
    requires Healthy(crc, hash, h, w, m, acc, recs)
    ensures |m| == |acc| <= |w.store.data| == |w.store.dirty| && |m| <= U64_MAX
    ensures |recs| <= U64_MAX && AllEncodable(recs) && w.store.journal == Journal(crc, h, recs)
    ensures CleanAccepted(w.store, acc, recs)
    ensures StagedOk(hash, w.store, m, acc, w.staged)
  {
  }

  // ----- stage -----

  /** The history after `bytes` have been accepted at `offset`. */
  ghost function Recorded(acc: History, offset: nat, bytes: seq<Byte>): (r: History)
    requires offset + |bytes| <= |acc|
    ensures |r| == |acc|
    ensures forall b :: 0 <= b < |acc| ==>
              r[b] == if offset <= b < offset + |bytes| then Some(bytes[b - offset]) else acc[b]
  {
    seq(|acc|, b requires 0 <= b < |acc| =>
      if offset <= b < offset + |bytes| then Some(bytes[b - offset]) else acc[b])
  }

  /** Nothing that was accepted is forgotten or changed. */
  ghost predicate Extends(acc: History, next: History)
  {
    |acc| == |next| && forall b :: 0 <= b < |acc| && acc[b].Some? ==> next[b] == acc[b]
  }

  /** The range is owned by `worker` and nothing in the batch touches it. */
  ghost predicate Writable(w: Writer, m: Owners, worker: U64, lo: nat, hi: nat)
  {
    && lo < hi <= |m| && AllAre(m, lo, hi, InProgress(worker))
    && forall i :: 0 <= i < |w.staged| ==> !Overlaps(w.staged[i], lo, hi)
  }

  lemma {:induction false} NoFirstOverlap(staged: seq<StagedBlock>, lo: nat, hi: nat)
    requires FirstOverlap(staged, lo, hi).None?
    ensures forall i :: 0 <= i < |staged| ==> !Overlaps(staged[i], lo, hi)
  {
    if staged != [] {
      NoFirstOverlap(staged[1..], lo, hi);
      assert staged == [staged[0]] + staged[1..];
    }
  }

  lemma GuardMeansWritable(w: Writer, m: Owners, worker: U64, offset: U64, bytes: seq<Byte>)
    requires |m| <= U64_MAX && StageGuard(w, m, worker, offset, bytes).Ok?
    ensures |m| == w.totalLength && 0 < |bytes| <= U32_MAX && w.stagedBytes + |bytes| <= U64_MAX
    ensures Writable(w, m, worker, offset, offset + |bytes|)
  {
    NoFirstOverlap(w.staged, offset, offset + |bytes|);
  }

  /** A writable byte is neither complete nor staged, so it has never been accepted. */
  lemma WritableIsFresh(crc: Checksum, hash: Hash, h: FileHeader, w: Writer, m: Owners, acc: History,
                        recs: seq<JournalRecord>, worker: U64, lo: nat, hi: nat)
    requires Healthy(crc, hash, h, w, m, acc, recs) && Writable(w, m, worker, lo, hi)
    ensures forall b :: lo <= b < hi ==> acc[b] == None && !Covers(recs, b) && m[b] == InProgress(worker)
  {
    hide Durable, Covers, BlockStaged;
    forall b | lo <= b < hi ensures acc[b] == None && !Covers(recs, b) {
      forall i | 0 <= i < |w.staged| ensures !InBlock(w.staged[i], b) {
        assert !Overlaps(w.staged[i], lo, hi);
      }
    }
  }

  /** Overwriting a writable range disturbs nothing that is durable or staged. */
  lemma WriteAside(crc: Checksum, hash: Hash, h: FileHeader, w: Writer, m: Owners, acc: History,
                   recs: seq<JournalRecord>, worker: U64, offset: nat, bytes: seq<Byte>)
    requires Healthy(crc, hash, h, w, m, acc, recs) && Writable(w, m, worker, offset, offset + |bytes|)
    ensures w.totalLength <= |w.store.data| == |w.store.dirty|
    ensures Healthy(crc, hash, h, On(w, WriteData(w.store, offset, bytes)), m, acc, recs)
  {
    hide Journal, Plain, Covers, BlockStaged;
    WritableIsFresh(crc, hash, h, w, m, acc, recs, worker, offset, offset + |bytes|);
    forall i | 0 <= i < |w.staged|
      ensures BlockStaged(hash, WriteData(w.store, offset, bytes), m, acc, w.staged[i])
    {
      StagedUntouched(hash, w.store, m, acc, w.staged[i], offset, bytes);
    }
  }

  lemma StagedUntouched(hash: Hash, s: Store, m: Owners, acc: History, b: StagedBlock, offset: nat, bytes: seq<Byte>)
    requires |m| == |acc| <= |s.data| == |s.dirty| && offset + |bytes| <= |s.data|
    requires BlockStaged(hash, s, m, acc, b) && bytes != [] && !Overlaps(b, offset, offset + |bytes|)
    ensures BlockStaged(hash, WriteData(s, offset, bytes), m, acc, b)
  {
    var s' := WriteData(s, offset, bytes);
    assert s'.data[b.lo..b.hi] == s.data[b.lo..b.hi];
  }

  lemma RecordedExtends(acc: History, offset: nat, bytes: seq<Byte>)
    requires offset + |bytes| <= |acc|
    requires forall b :: offset <= b < offset + |bytes| ==> acc[b] == None
    ensures Extends(acc, Recorded(acc, offset, bytes))
  {
  }

  lemma DurableExtends(crc: Checksum, h: FileHeader, s: Store, acc: History, next: History,
                       recs: seq<JournalRecord>, floor: nat)
    requires Durable(crc, h, s, acc, recs, floor) && Extends(acc, next)
    ensures Durable(crc, h, s, next, recs, floor)
  {
    hide Journal, Plain, Covers;
  }

  /** A block that is written and staged extends the history at bytes never accepted before. */
  lemma AcceptHealthy(crc: Checksum, hash: Hash, h: FileHeader, w: Writer, m: Owners, acc: History,
                      recs: seq<JournalRecord>, worker: U64, offset: U64, bytes: seq<Byte>, now: nat)
    requires Healthy(crc, hash, h, w, m, acc, recs) && Writable(w, m, worker, offset, offset + |bytes|)
    requires |bytes| <= U32_MAX && w.stagedBytes + |bytes| <= U64_MAX
    ensures Fits(w) && Extends(acc, Recorded(acc, offset, bytes))
    ensures Healthy(crc, hash, h, Accept(hash, w, worker, offset, bytes, now), m, Recorded(acc, offset, bytes), recs)
  {
    hide Journal, Plain, Covers, BlockStaged, Durable;
    var next := Recorded(acc, offset, bytes);
    WritableIsFresh(crc, hash, h, w, m, acc, recs, worker, offset, offset + |bytes|);
    RecordedExtends(acc, offset, bytes);
    WriteAside(crc, hash, h, w, m, acc, recs, worker, offset, bytes);
    HealthyParts(crc, hash, h, w, m, acc, recs);
    var s := WriteData(w.store, offset, bytes);
    DurableExtends(crc, h, s, acc, next, recs, |recs|);
    var block := StagedBlock(offset, offset + |bytes|, |bytes|, worker, hash(bytes));
    NewBlockStaged(hash, w.store, m, acc, worker, offset, bytes);
    forall i | 0 <= i < |w.staged| ensures BlockStaged(hash, s, m, next, w.staged[i]) {
      BlockExtends(hash, s, m, acc, next, w.staged[i]);
    }
    StagedSnoc(w.staged, block, m, acc, next);
  }

  lemma NewBlockStaged(hash: Hash, s: Store, m: Owners, acc: History, worker: U64, offset: U64, bytes: seq<Byte>)
    requires |m| == |acc| <= |s.data| == |s.dirty| && |m| <= U64_MAX && 0 < |bytes| <= U32_MAX
    requires offset + |bytes| <= |m| && AllAre(m, offset, offset + |bytes|, InProgress(worker))
    ensures BlockStaged(hash, WriteData(s, offset, bytes), m, Recorded(acc, offset, bytes),
                        StagedBlock(offset, offset + |bytes|, |bytes|, worker, hash(bytes)))
  {
    assert WriteData(s, offset, bytes).data[offset..offset + |bytes|] == bytes;
  }

  lemma BlockExtends(hash: Hash, s: Store, m: Owners, acc: History, next: History, b: StagedBlock)
    requires |m| == |acc| <= |s.data| && BlockStaged(hash, s, m, acc, b) && Extends(acc, next)
    ensures BlockStaged(hash, s, m, next, b)
  {
  }

  lemma StagedSnoc(staged: seq<StagedBlock>, block: StagedBlock, m: Owners, acc: History, next: History)
    requires |m| == |acc| == |next| && block.lo <= block.hi <= |m| && AcceptedOnce(m, staged, acc)
    requires forall b :: 0 <= b < |m| ==> (next[b].Some? <==> acc[b].Some? || InBlock(block, b))
    ensures AcceptedOnce(m, staged + [block], next)
  {
    forall b | 0 <= b < |m| ensures InStaged(staged + [block], b) <==> InStaged(staged, b) || InBlock(block, b) {
      InStagedLast(staged + [block], b);
      assert (staged + [block])[..|staged|] == staged;
    }
  }

  /** Whether a write gets as far as being staged. */
  predicate Accepted(w: Writer, m: Owners, worker: U64, offset: U64, bytes: seq<Byte>, faults: Faults)
    requires |m| <= U64_MAX
  {
    StageGuard(w, m, worker, offset, bytes).Ok? && faults.write == WriteOk
  }

  ghost function NextHistory(w: Writer, m: Owners, acc: History, worker: U64, offset: U64, bytes: seq<Byte>,
                             faults: Faults): History
    requires |m| <= U64_MAX && |acc| == |m|
  {
    if Accepted(w, m, worker, offset, bytes, faults) then Recorded(acc, offset, bytes) else acc
  }

  /** Nothing but staged bytes changes state, and only to complete. */
  ghost predicate OnlyCompletes(m: Owners, next: Owners)
  {
    |m| == |next| && forall b :: 0 <= b < |m| ==> (next[b] == m[b] || (m[b].InProgress? && next[b] == Complete))
  }

  /** The effect of one writer operation on the durable story. */
  ghost predicate Progress(crc: Checksum, hash: Hash, h: FileHeader, w: Writer, o: Outcome, m: Owners,
                           acc: History, base: seq<JournalRecord>, recs: seq<JournalRecord>, floor: nat)
  {
    && base <= recs && |base| <= floor
    && OnlyCompletes(m, o.owners)
    && Visited(crc, h, w, o.writer, acc, base)
    && Sound(crc, hash, h, o.writer, o.owners, acc, recs, floor)
  }

  lemma FlushProgress(crc: Checksum, hash: Hash, h: FileHeader, w: Writer, m: Owners, acc: History,
                      recs: seq<JournalRecord>, fault: FlushFault) returns (recs': seq<JournalRecord>, floor: nat)
    requires Healthy(crc, hash, h, w, m, acc, recs)
    ensures |m| <= U64_MAX && Progress(crc, hash, h, w, Flush(crc, w, m, fault), m, acc, recs, recs', floor)
    ensures !(Flush(crc, w, m, fault).result.Err? && Flush(crc, w, m, fault).result.error.Rejected?)
    ensures Flush(crc, w, m, fault).result.Ok? ==>
              && floor == |recs'| && Flush(crc, w, m, fault).writer.staged == []
              && Healthy(crc, hash, h, Flush(crc, w, m, fault).writer, Flush(crc, w, m, fault).owners, acc, recs')
  {
    hide Healthy, Broken, Visited, Flush, CompleteAll;
    HealthyParts(crc, hash, h, w, m, acc, recs);
    FlushSound(crc, hash, h, w, m, acc, recs, fault);
    FlushOwners(crc, hash, h, w, m, acc, recs, fault);
    var o := Flush(crc, w, m, fault);
    if o.result == Err(SequenceExhausted) {
      recs', floor := recs, |recs|;
    } else {
      recs' := FlushRecords(w, recs, fault);
      floor := if o.result.Ok? then |recs'| else |recs|;
    }
  }

  lemma FlushOwners(crc: Checksum, hash: Hash, h: FileHeader, w: Writer, m: Owners, acc: History,
                    recs: seq<JournalRecord>, fault: FlushFault)
    requires Healthy(crc, hash, h, w, m, acc, recs)
    ensures |m| <= U64_MAX && OnlyCompletes(m, Flush(crc, w, m, fault).owners)
  {
    hide Durable, StagedOk, CompleteAll, CommitBatch;
    HealthyParts(crc, hash, h, w, m, acc, recs);
    FlushMap(hash, w.store, m, acc, w.staged, recs);
  }

  lemma VisitedOne(crc: Checksum, hash: Hash, h: FileHeader, w: Writer, after: Writer, m: Owners, acc: History,
                   recs: seq<JournalRecord>)
    requires Healthy(crc, hash, h, after, m, acc, recs) && after.images == w.images + [after.store]
    ensures Visited(crc, h, w, after, acc, recs)
  {
    hide Durable, StagedOk;
    assert Survivable(crc, h, after.store, acc, recs);
  }

  lemma VisitedThen(crc: Checksum, h: FileHeader, a: Writer, b: Writer, c: Writer, acc: History,
                    base: seq<JournalRecord>)
    requires Visited(crc, h, a, b, acc, base) && Visited(crc, h, b, c, acc, base)
    ensures Visited(crc, h, a, c, acc, base)
  {
    hide Survivable;
    forall i | |a.images| <= i < |c.images| ensures Survivable(crc, h, c.images[i], acc, base) {
      if i < |b.images| {
        assert c.images[i] == b.images[i];
      }
    }
  }

  /** Fields no guarantee depends on. */
  lemma SoundIgnoresDiskFull(crc: Checksum, hash: Hash, h: FileHeader, w: Writer, m: Owners, acc: History,
                             recs: seq<JournalRecord>, floor: nat, at: Option<U64>)
    requires Sound(crc, hash, h, w, m, acc, recs, floor)
    ensures Sound(crc, hash, h, w.(diskFullAt := at), m, acc, recs, floor)
  {
    hide Durable, StagedOk, AcceptedOnce, CompleteIsCovered;
  }

  /** A stage leaves the writer sound whatever fails, and never lets a byte be accepted twice. */
  lemma StageProgress(crc: Checksum, hash: Hash, h: FileHeader, w: Writer, m: Owners, acc: History,
                      recs: seq<JournalRecord>, worker: U64, offset: U64, bytes: seq<Byte>, now: nat, faults: Faults)
    returns (recs': seq<JournalRecord>, floor: nat)
    requires Healthy(crc, hash, h, w, m, acc, recs)
    ensures |m| <= U64_MAX && Fits(w)
    ensures var next := NextHistory(w, m, acc, worker, offset, bytes, faults);
            && Extends(acc, next)
            && Progress(crc, hash, h, w, Stage(crc, hash, w, m, worker, offset, bytes, now, faults), m, next,
                        recs, recs', floor)
  {
    hide Healthy, Broken, Visited, Flush, Accept, StageGuard, Sound;
    HealthyParts(crc, hash, h, w, m, acc, recs);
    StillSound(crc, hash, h, w, m, acc, recs);
    recs', floor := recs, |recs|;
    if StageGuard(w, m, worker, offset, bytes).Ok? {
      GuardMeansWritable(w, m, worker, offset, bytes);
      match faults.write
      case WriteOk =>
        recs', floor := StageAccepted(crc, hash, h, w, m, acc, recs, worker, offset, bytes, now, faults);
      case WriteBroken(landed) =>
        StageBroken(crc, hash, h, w, m, acc, recs, worker, offset, Landing(w.store, offset, landed, |bytes|));
      case WriteRefused(landed) =>
        recs', floor := StageRefused(crc, hash, h, w, m, acc, recs, worker, offset,
                                     Landing(w.store, offset, landed, |bytes|), faults.flush);
    }
  }

  lemma StillSound(crc: Checksum, hash: Hash, h: FileHeader, w: Writer, m: Owners, acc: History,
                   recs: seq<JournalRecord>)
    requires Healthy(crc, hash, h, w, m, acc, recs)
    ensures w.totalLength <= |w.store.data| && Sound(crc, hash, h, w, m, acc, recs, |recs|)
    ensures Visited(crc, h, w, w, acc, recs)
  {
    hide Durable;
    HealthyParts(crc, hash, h, w, m, acc, recs);
  }

  lemma StageBroken(crc: Checksum, hash: Hash, h: FileHeader, w: Writer, m: Owners, acc: History,
                    recs: seq<JournalRecord>, worker: U64, offset: U64, bytes: seq<Byte>)
    requires Healthy(crc, hash, h, w, m, acc, recs) && Writable(w, m, worker, offset, offset + |bytes|)
    ensures Fits(w)
    ensures var w' := On(w, WriteData(w.store, offset, bytes)).(poisoned := true);
            Visited(crc, h, w, w', acc, recs) && Sound(crc, hash, h, w', m, acc, recs, |recs|)
  {
    hide Durable, StagedOk;
    HealthyParts(crc, hash, h, w, m, acc, recs);
    WriteAside(crc, hash, h, w, m, acc, recs, worker, offset, bytes);
    var w1 := On(w, WriteData(w.store, offset, bytes));
    VisitedOne(crc, hash, h, w, w1, m, acc, recs);
    assert recs[..|recs|] == recs;
    assert Broken(crc, h, w1.(poisoned := true), m, acc, recs, |recs|);
  }

  lemma StageRefused(crc: Checksum, hash: Hash, h: FileHeader, w: Writer, m: Owners, acc: History,
                     recs: seq<JournalRecord>, worker: U64, offset: U64, bytes: seq<Byte>, fault: FlushFault)
    returns (recs': seq<JournalRecord>, floor: nat)
    requires Healthy(crc, hash, h, w, m, acc, recs) && Writable(w, m, worker, offset, offset + |bytes|)
    ensures Fits(w) && |m| <= U64_MAX
    ensures var o := Flush(crc, On(w, WriteData(w.store, offset, bytes)), m, fault);
            Progress(crc, hash, h, w, Outcome(o.writer.(diskFullAt := Some(offset)), o.owners, Err(NoSpace(offset))),
                     m, acc, recs, recs', floor)
  {
    hide Healthy, Broken, Flush;
    HealthyParts(crc, hash, h, w, m, acc, recs);
    WriteAside(crc, hash, h, w, m, acc, recs, worker, offset, bytes);
    var w1 := On(w, WriteData(w.store, offset, bytes));
    VisitedOne(crc, hash, h, w, w1, m, acc, recs);
    recs', floor := FlushProgress(crc, hash, h, w1, m, acc, recs, fault);
    var o := Flush(crc, w1, m, fault);
    VisitedThen(crc, h, w, w1, o.writer, acc, recs);
    SoundIgnoresDiskFull(crc, hash, h, o.writer, o.owners, acc, recs', floor, Some(offset));
  }

  lemma StageAccepted(crc: Checksum, hash: Hash, h: FileHeader, w: Writer, m: Owners, acc: History,
                      recs: seq<JournalRecord>, worker: U64, offset: U64, bytes: seq<Byte>, now: nat, faults: Faults)
    returns (recs': seq<JournalRecord>, floor: nat)
    requires Healthy(crc, hash, h, w, m, acc, recs) && Writable(w, m, worker, offset, offset + |bytes|)
    requires 0 < |bytes| <= U32_MAX && w.stagedBytes + |bytes| <= U64_MAX
    requires |m| <= U64_MAX && StageGuard(w, m, worker, offset, bytes).Ok? && faults.write == WriteOk && Fits(w)
    requires |acc| == |m| == w.totalLength
    ensures var next := Recorded(acc, offset, bytes);
            && Extends(acc, next)
            && Progress(crc, hash, h, w, Stage(crc, hash, w, m, worker, offset, bytes, now, faults), m, next,
                        recs, recs', floor)
  {
    hide Healthy, Broken, Flush, Accept, StageGuard;
    var next := Recorded(acc, offset, bytes);
    AcceptHealthy(crc, hash, h, w, m, acc, recs, worker, offset, bytes, now);
    var w1 := Accept(hash, w, worker, offset, bytes, now);
    AcceptImages(hash, w, worker, offset, bytes, now);
    VisitedOne(crc, hash, h, w, w1, m, next, recs);
    if w1.stagedBytes >= JOURNAL_FLUSH_BYTES {
      recs', floor := FlushProgress(crc, hash, h, w1, m, next, recs, faults.flush);
      VisitedThen(crc, h, w, w1, Flush(crc, w1, m, faults.flush).writer, next, recs);
    } else {
      recs', floor := recs, |recs|;
    }
  }

  lemma AcceptImages(hash: Hash, w: Writer, worker: U64, offset: U64, bytes: seq<Byte>, now: nat)
    requires Fits(w) && offset + |bytes| <= w.totalLength && |bytes| <= U32_MAX
    requires w.stagedBytes + |bytes| <= U64_MAX
    ensures var w' := Accept(hash, w, worker, offset, bytes, now); w'.images == w.images + [w'.store]
  {
  }
}
