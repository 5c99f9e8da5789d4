/**
 The durable writer as an object: the operations of `Writer` carried out on its own fields, one
 loop and one disk operation at a time, and on the interval map it is lent.

 Each method is proved to do exactly what the function of the same name in `Writer` says, so
 everything `CommitOrder` and `CrashSafety` prove about those functions holds of this object.
 */
module DurableWriting {
  import opened Base
  import opened Ownership
  import opened Intervals
  import opened JournalFormat
  import opened Replay
  import opened Storage
  import opened CommitOrder
  import W = Writer

  lemma EncodeSnoc(crc: Checksum, recs: seq<JournalRecord>, from: nat, i: nat)
    requires AllEncodable(recs) && from + |recs| <= U64_MAX && i < |recs|
    ensures EncodeAll(crc, recs[..i + 1], from) == EncodeAll(crc, recs[..i], from) + Frame(crc, from + i, recs[i])
  {
    hide Frame, Encodable, EncodeAll;
    assert recs[..i + 1] == recs[..i] + [recs[i]];
    EncodeAllConcat(crc, recs[..i], [recs[i]], from);
    EncodeOne(crc, recs[i], from + i);
  }

  lemma ConcatAssoc(a: seq<Byte>, b: seq<Byte>, c: seq<Byte>)
    ensures a + (b + c) == (a + b) + c
  {
  }

  lemma StoresAssoc(a: seq<Store>, b: seq<Store>, x: Store)
    ensures a + b + [x] == a + (b + [x])
  {
  }

  lemma EncodableAt(recs: seq<JournalRecord>, i: nat)
    requires AllEncodable(recs) && i < |recs|
    ensures Encodable(recs[i])
  {
  }

  lemma AppendOne(crc: Checksum, s: Store, recs: seq<JournalRecord>, from: nat, i: nat)
    requires AllEncodable(recs) && from + |recs| <= U64_MAX && i < |recs|
    ensures W.Appended(crc, s, recs, from, i + 1)
            == AppendJournal(W.Appended(crc, s, recs, from, i), Frame(crc, from + i, recs[i]))
  {
    hide Frame, Encodable, EncodeAll;
    EncodeSnoc(crc, recs, from, i);
    ConcatAssoc(s.journal, EncodeAll(crc, recs[..i], from), Frame(crc, from + i, recs[i]));
  }

  /** The stores passed through by the first `i` appends. */
  ghost predicate Visiting(crc: Checksum, s: Store, recs: seq<JournalRecord>, from: nat, i: nat, visited: seq<Store>)
    requires AllEncodable(recs) && from + |recs| <= U64_MAX && i <= |recs|
  {
    visited == W.AppendImages(crc, s, recs, from, i)
  }

  lemma VisitingNone(crc: Checksum, s: Store, recs: seq<JournalRecord>, from: nat)
    requires AllEncodable(recs) && from + |recs| <= U64_MAX
    ensures W.Appended(crc, s, recs, from, 0) == s && Visiting(crc, s, recs, from, 0, [])
  {
    AppendNone(crc, s, recs, from);
  }

  lemma VisitingNext(crc: Checksum, s: Store, recs: seq<JournalRecord>, from: nat, i: nat, visited: seq<Store>)
    requires AllEncodable(recs) && from + |recs| <= U64_MAX && i < |recs| && Visiting(crc, s, recs, from, i, visited)
    ensures Visiting(crc, s, recs, from, i + 1, visited + [W.Appended(crc, s, recs, from, i + 1)])
  {
    hide W.Appended;
  }

  lemma VisitingIs(crc: Checksum, s: Store, recs: seq<JournalRecord>, from: nat, i: nat, visited: seq<Store>)
    requires AllEncodable(recs) && from + |recs| <= U64_MAX && i <= |recs| && Visiting(crc, s, recs, from, i, visited)
    ensures visited == W.AppendImages(crc, s, recs, from, i)
  {
  }

  lemma TornIs(crc: Checksum, s: Store, recs: seq<JournalRecord>, from: nat, i: nat, torn: nat)
    requires AllEncodable(recs) && from + |recs| <= U64_MAX && i < |recs|
    ensures var frame := Frame(crc, from + i, recs[i]);
            W.TornAppend(crc, s, recs, from, i, torn)
            == AppendJournal(W.Appended(crc, s, recs, from, i), frame[..Min(torn, |frame|)])
  {
    hide Frame, W.Appended;
  }

  lemma AppendNone(crc: Checksum, s: Store, recs: seq<JournalRecord>, from: nat)
    requires AllEncodable(recs) && from + |recs| <= U64_MAX
    ensures W.Appended(crc, s, recs, from, 0) == s && W.AppendImages(crc, s, recs, from, 0) == []
  {
    hide Frame, Encodable;
    assert recs[..0] == [];
    assert EncodeAll(crc, recs[..0], from) == [];
    assert s.journal + [] == s.journal;
  }

  lemma {:induction false} OverlapFrom(staged: seq<W.StagedBlock>, i: nat, lo: nat, hi: nat)
    requires i < |staged|
    ensures W.FirstOverlap(staged[i..], lo, hi)
            == if W.Overlaps(staged[i], lo, hi) then Some(staged[i]) else W.FirstOverlap(staged[i + 1..], lo, hi)
  {
    assert staged[i..][1..] == staged[i + 1..];
  }

  lemma BytesOfNext(staged: seq<W.StagedBlock>, i: nat)
    requires i < |staged|
    ensures W.BytesOf(staged[..i + 1])
            == W.BytesOf(staged[..i]) + if staged[i].lo <= staged[i].hi then staged[i].hi - staged[i].lo else 0
  {
    assert staged[..i + 1][..i] == staged[..i];
  }

  class DurableWriter {
    const totalLength: U64
    var store: Store
    ghost var images: seq<Store>
    var nextSequence: U64
    var staged: seq<W.StagedBlock>
    var stagedBytes: U64
    var firstStagedAt: Option<nat>
    var poisoned: bool
    var diskFullAt: Option<U64>
    var durableBytes: U64

    ghost function Value(): W.Writer
      reads this
    {
      W.Writer(totalLength, store, images, nextSequence, staged, stagedBytes, firstStagedAt, poisoned, diskFullAt,
               durableBytes)
    }

    constructor (length: U64, disk: Store, sequence: U64)
      ensures W.Create(length, length, disk, sequence) == Ok(Value())
    {
      totalLength, store, images, nextSequence := length, disk, [disk], sequence;
      staged, stagedBytes, firstStagedAt := [], 0, None;
      poisoned, diskFullAt, durableBytes := false, None, 0;
    }

    /** Binds a part file and a journal, or refuses a pair that disagree about the length. */
    static method TryNew(dataLength: U64, journalLength: U64, disk: Store, sequence: U64)
      returns (r: Result<DurableWriter, W.WriterError>)
      ensures r.Ok? ==> fresh(r.value) && W.Create(dataLength, journalLength, disk, sequence) == Ok(r.value.Value())
      ensures r.Err? ==> W.Create(dataLength, journalLength, disk, sequence) == Err(r.error)
    {
      if dataLength != journalLength {
        return Err(W.LengthMismatch(dataLength, journalLength));
      }
      var writer := new DurableWriter(dataLength, disk, sequence);
      r := Ok(writer);
    }

    /** One disk operation: the store changes and the new state is remembered. */
    method Put(s: Store)
      modifies this`store, this`images
      ensures store == s && images == old(images) + [s]
    {
      store, images := s, images + [s];
    }

    /** Completes every staged block on the candidate map, in order. */
    method CompleteStaged(candidate: IntervalMap) returns (r: Result<Unit, IntervalMapError>)
      requires candidate.Valid()
      modifies candidate`intervals
      ensures candidate.Valid() && |old(candidate.Owners())| == candidate.totalLength
      ensures match W.CompleteAll(old(candidate.Owners()), staged)
              case Ok(m) => r.Ok? && candidate.Owners() == m
              case Err(e) => r == Err(e)
    {
      hide Canonical, Expand, CompleteRange;
      ghost var m := candidate.Owners();
      MapLength(candidate);
      for i := 0 to |staged|
        invariant candidate.Valid() && W.CompleteAll(m, staged[..i]) == Ok(candidate.Owners())
      {
        assert staged[..i + 1][..i] == staged[..i];
        var b := staged[i];
        var done := candidate.Complete(b.lo, b.hi, b.worker);
        if done.Err? {
          FirstRejection(m, staged, i + 1, done.error);
          return Err(done.error);
        }
      }
      assert staged[..|staged|] == staged;
      r := Ok(Unit);
    }

    /** Appends the frames one by one; a failing append leaves a prefix of its own frame. */
    method AppendFrames(crc: Checksum, recs: seq<JournalRecord>, fault: W.FlushFault) returns (done: bool)
      requires AllEncodable(recs) && nextSequence + |recs| <= U64_MAX
      modifies this`store, this`images
      ensures done == !(fault.AppendFails? && fault.index < |recs|)
      ensures done ==> store == W.Appended(crc, old(store), recs, nextSequence, |recs|)
      ensures done ==> images == old(images) + W.AppendImages(crc, old(store), recs, nextSequence, |recs|)
      ensures !done ==> store == W.TornAppend(crc, old(store), recs, nextSequence, fault.index, fault.torn)
      ensures !done ==>
                images == old(images) + W.AppendImages(crc, old(store), recs, nextSequence, fault.index) + [store]
    {
      hide Frame, AllEncodable, EncodeAll, W.Appended, W.AppendImages, W.TornAppend, Visiting, AppendJournal;
      ghost var first, visited: seq<Store> := store, [];
      VisitingNone(crc, first, recs, nextSequence);
      for i := 0 to |recs|
        invariant fault.AppendFails? ==> i <= fault.index
        invariant store == W.Appended(crc, first, recs, nextSequence, i)
        invariant images == old(images) + visited && Visiting(crc, first, recs, nextSequence, i, visited)
      {
        EncodableAt(recs, i);
        var frame := Frame(crc, nextSequence + i, recs[i]);
        if fault.AppendFails? && fault.index == i {
          TornIs(crc, first, recs, nextSequence, i, fault.torn);
          VisitingIs(crc, first, recs, nextSequence, i, visited);
          Put(AppendJournal(store, frame[..Min(fault.torn, |frame|)]));
          return false;
        }
        AppendOne(crc, first, recs, nextSequence, i);
        VisitingNext(crc, first, recs, nextSequence, i, visited);
        StoresAssoc(old(images), visited, AppendJournal(store, frame));
        Put(AppendJournal(store, frame));
        visited := visited + [store];
      }
      VisitingIs(crc, first, recs, nextSequence, |recs|, visited);
      done := true;
    }

    /** Data sync, then the frames, then journal sync; stops where the fault says. */
    method CommitToDisk(crc: Checksum, recs: seq<JournalRecord>, fault: W.FlushFault) returns (done: bool)
      requires AllEncodable(recs) && nextSequence + |recs| <= U64_MAX
      modifies this`store, this`images
      ensures var c := W.CommitBatch(crc, old(store), recs, nextSequence, fault);
              done == c.done && Value() == W.Visit(old(Value()), c.images)
    {
      hide Frame, Encodable, W.Appended, W.AppendImages, W.TornAppend;
      if fault == W.DataSyncFails {
        return false;
      }
      ghost var clean := SyncData(store);
      Put(SyncData(store));
      var appended := AppendFrames(crc, recs, fault);
      LastImage(crc, clean, recs, nextSequence);
      if !appended || fault == W.JournalSyncFails {
        return false;
      }
      Put(SyncJournal(store));
      done := true;
    }

    /** The journal record and the receipt of every staged block. */
    method Describe() returns (records: seq<JournalRecord>, completed: seq<W.DurableBlock>)
      requires nextSequence + |staged| <= U64_MAX
      ensures records == W.RecordsFor(staged) && completed == W.Committed(staged, nextSequence)
    {
      records, completed := [], [];
      for i := 0 to |staged|
        invariant records == W.RecordsFor(staged)[..i] && completed == W.Committed(staged, nextSequence)[..i]
      {
        var b := staged[i];
        records := records + [BlockComplete(b.lo, b.len, b.blake3)];
        completed := completed + [W.DurableBlock(nextSequence + i, b.lo, b.hi, b.worker, b.blake3)];
      }
    }

    /** Adds up the committed bytes, saturating. */
    method CountDurable() returns (total: U64)
      ensures total == W.Saturating(durableBytes + W.BytesOf(staged))
    {
      total := durableBytes;
      for i := 0 to |staged|
        invariant total == W.Saturating(durableBytes + W.BytesOf(staged[..i]))
      {
        BytesOfNext(staged, i);
        var b := staged[i];
        total := W.Saturating(total + if b.lo <= b.hi then b.hi - b.lo else 0);
      }
      assert staged[..|staged|] == staged;
    }

    /** Everything from the first sync on: the map is swapped only after both. */
    method CommitStaged(crc: Checksum, intervals: IntervalMap, next: IntervalMap, fault: W.FlushFault)
      returns (r: Result<seq<W.DurableBlock>, W.WriterError>)
      requires nextSequence + |staged| <= U64_MAX
      modifies this, intervals`intervals
      ensures var w, n := old(Value()), |old(staged)|;
              var c := W.CommitBatch(crc, w.store, W.RecordsFor(w.staged), w.nextSequence, fault);
              var on := W.Visit(w, c.images);
              if !c.done then
                r == Err(W.Io) && Value() == on.(poisoned := true) && intervals.intervals == old(intervals.intervals)
              else
                && r == Ok(W.Committed(w.staged, w.nextSequence)) && intervals.intervals == old(next.intervals)
                && Value() == on.(nextSequence := w.nextSequence + n,
                                  durableBytes := W.Saturating(w.durableBytes + W.BytesOf(w.staged)),
                                  staged := [], stagedBytes := 0, firstStagedAt := None)
    {
      hide W.CommitBatch, W.Saturating, W.BytesOf, Encodable, W.Visit;
      var records, completed := Describe();
      var total := CountDurable();
      var done := CommitToDisk(crc, records, fault);
      VisitKeeps(old(Value()), W.CommitBatch(crc, old(store), records, nextSequence, fault).images);
      if !done {
        poisoned := true;
        return Err(W.Io);
      }
      intervals.intervals := next.intervals;
      nextSequence, durableBytes := nextSequence + |staged|, total;
      staged, stagedBytes, firstStagedAt := [], 0, None;
      r := Ok(completed);
    }

    /** Commits the batch, or says why not. */
    method Flush(crc: Checksum, intervals: IntervalMap, fault: W.FlushFault)
      returns (r: Result<seq<W.DurableBlock>, W.WriterError>)
      requires intervals.Valid()
      modifies this, intervals`intervals
      ensures intervals.Valid() && |old(intervals.Owners())| == intervals.totalLength
      ensures W.Outcome(Value(), intervals.Owners(), r)
              == W.Flush(crc, old(Value()), old(intervals.Owners()), fault)
    {
      hide W.CommitBatch, W.CompleteAll, W.Visit, W.Saturating, W.BytesOf, Canonical, Expand, Encodable, W.Committed,
        W.RecordsFor;
      MapLength(intervals);
      if poisoned {
        return Err(W.Poisoned);
      }
      if intervals.totalLength != totalLength {
        return Err(W.IntervalLengthMismatch(totalLength, intervals.totalLength));
      }
      if staged == [] {
        return Ok([]);
      }
      var next := new IntervalMap.Clone(intervals);
      var completable := CompleteStaged(next);
      if completable.Err? {
        poisoned := true;
        return Err(W.Rejected(completable.error));
      }
      if nextSequence + |staged| > U64_MAX {
        return Err(W.SequenceExhausted);
      }
      r := CommitStaged(crc, intervals, next, fault);
    }

    method FlushIfDue(crc: Checksum, intervals: IntervalMap, now: nat, fault: W.FlushFault)
      returns (r: Result<seq<W.DurableBlock>, W.WriterError>)
      requires intervals.Valid()
      modifies this, intervals`intervals
      ensures intervals.Valid() && |old(intervals.Owners())| == intervals.totalLength
      ensures W.Outcome(Value(), intervals.Owners(), r)
              == W.FlushIfDue(crc, old(Value()), old(intervals.Owners()), now, fault)
    {
      hide W.Flush, Canonical, Expand;
      MapLength(intervals);
      if poisoned {
        return Err(W.Poisoned);
      }
      if firstStagedAt.Some? && now >= firstStagedAt.value && now - firstStagedAt.value >= W.JOURNAL_FLUSH_INTERVAL {
        r := Flush(crc, intervals, fault);
      } else {
        r := Ok([]);
      }
    }

    /** The first staged block a range would touch. */
    method FindOverlap(lo: nat, hi: nat) returns (r: Option<W.StagedBlock>)
      ensures r == W.FirstOverlap(staged, lo, hi)
    {
      hide W.FirstOverlap, W.Overlaps;
      assert staged[0..] == staged;
      for i := 0 to |staged|
        invariant W.FirstOverlap(staged, lo, hi) == W.FirstOverlap(staged[i..], lo, hi)
      {
        OverlapFrom(staged, i, lo, hi);
        if W.Overlaps(staged[i], lo, hi) {
          return Some(staged[i]);
        }
      }
      assert staged[|staged|..] == [];
      NoOverlapLeft(lo, hi);
      r := None;
    }

    /** Every guard, in order; the ownership test runs on a copy of the map. */
    method CheckStage(intervals: IntervalMap, worker: U64, offset: U64, bytes: seq<Byte>)
      returns (r: Result<Unit, W.WriterError>)
      requires intervals.Valid()
      ensures |intervals.Owners()| == intervals.totalLength
      ensures r == W.StageGuard(Value(), intervals.Owners(), worker, offset, bytes)
    {
      hide W.FirstOverlap, Canonical, Expand, CompleteRange;
      MapLength(intervals);
      if poisoned {
        return Err(W.Poisoned);
      }
      if intervals.totalLength != totalLength {
        return Err(W.IntervalLengthMismatch(totalLength, intervals.totalLength));
      }
      if bytes == [] {
        return Err(W.EmptyBlock);
      }
      if |bytes| > U32_MAX {
        return Err(W.BlockTooLarge(|bytes|));
      }
      var end := offset + |bytes|;
      if end > U64_MAX {
        return Err(W.RangeOverflow(offset, |bytes|));
      }
      var candidate := new IntervalMap.Clone(intervals);
      var owned := candidate.Complete(offset, end, worker);
      if owned.Err? {
        return Err(W.Rejected(owned.error));
      }
      var overlap := FindOverlap(offset, end);
      if overlap.Some? {
        return Err(W.OverlappingStaged(overlap.value, offset, end));
      }
      r := if stagedBytes + |bytes| > U64_MAX then Err(W.BatchLengthOverflow) else Ok(Unit);
    }

    /** Writes one block and stages it; commits at once when the batch is full or the disk is. */
    method Stage(crc: Checksum, hash: Hash, intervals: IntervalMap, worker: U64, offset: U64, bytes: seq<Byte>,
                 now: nat, faults: W.Faults)
      returns (r: Result<seq<W.DurableBlock>, W.WriterError>)
      requires intervals.Valid() && W.Fits(Value())
      modifies this, intervals`intervals
      ensures intervals.Valid() && |old(intervals.Owners())| == intervals.totalLength
      ensures W.Outcome(Value(), intervals.Owners(), r)
              == W.Stage(crc, hash, old(Value()), old(intervals.Owners()), worker, offset, bytes, now, faults)
    {
      hide W.StageGuard, W.Flush, Canonical, Expand, WriteData, W.Landing;
      var guard := CheckStage(intervals, worker, offset, bytes);
      if guard.Err? {
        return Err(guard.error);
      }
      GuardFits(Value(), intervals.Owners(), worker, offset, bytes);
      match faults.write
      case WriteBroken(landed) =>
        Put(WriteData(store, offset, W.Landing(store, offset, landed, |bytes|)));
        poisoned := true;
        r := Err(W.Io);
      case WriteRefused(landed) =>
        Put(WriteData(store, offset, W.Landing(store, offset, landed, |bytes|)));
        var _ := Flush(crc, intervals, faults.flush);
        diskFullAt := Some(offset);
        r := Err(W.NoSpace(offset));
      case WriteOk =>
        Put(WriteData(store, offset, bytes));
        staged := staged + [W.StagedBlock(offset, offset + |bytes|, |bytes|, worker, hash(bytes))];
        stagedBytes := stagedBytes + |bytes|;
        firstStagedAt := if firstStagedAt.Some? then firstStagedAt else Some(now);
        if stagedBytes >= W.JOURNAL_FLUSH_BYTES {
          r := Flush(crc, intervals, faults.flush);
        } else {
          r := Ok([]);
        }
    }
  }

  lemma NoOverlapLeft(lo: nat, hi: nat)
    ensures W.FirstOverlap([], lo, hi) == None
  {
  }

  /** A write that passes the guards lands inside the part file. */
  lemma GuardFits(w: W.Writer, m: Owners, worker: U64, offset: U64, bytes: seq<Byte>)
    requires |m| <= U64_MAX && W.Fits(w) && W.StageGuard(w, m, worker, offset, bytes).Ok?
    ensures 0 < |bytes| <= U32_MAX && offset + |bytes| <= w.totalLength <= |w.store.data| == |w.store.dirty|
    ensures w.stagedBytes + |bytes| <= U64_MAX
  {
    hide W.FirstOverlap;
  }

  lemma MapLength(intervals: IntervalMap)
    requires intervals.Valid()
    ensures |intervals.Owners()| == intervals.totalLength
  {
    ExpandDescribes(intervals.intervals, intervals.totalLength);
  }

  lemma VisitKeeps(w: W.Writer, images: seq<Store>)
    ensures W.Visit(w, images) == w.(store := W.Visit(w, images).store, images := W.Visit(w, images).images)
  {
  }

  /** The last state of a full append is the appended store itself. */
  lemma LastImage(crc: Checksum, s: Store, recs: seq<JournalRecord>, from: nat)
    requires AllEncodable(recs) && from + |recs| <= U64_MAX
    ensures var images := [s] + W.AppendImages(crc, s, recs, from, |recs|);
            images[|images| - 1] == W.Appended(crc, s, recs, from, |recs|)
  {
    hide W.Appended;
    AppendNone(crc, s, recs, from);
  }

  lemma {:induction false} FirstRejection(m: Owners, staged: seq<W.StagedBlock>, i: nat, e: IntervalMapError)
    requires |m| <= U64_MAX && i <= |staged| && W.CompleteAll(m, staged[..i]) == Err(e)
    ensures W.CompleteAll(m, staged) == Err(e)
    decreases |staged|
  {
    if i < |staged| {
      var n := |staged| - 1;
      assert staged[..n][..i] == staged[..i];
      FirstRejection(m, staged[..n], i, e);
    } else {
      assert staged[..i] == staged;
    }
  }
}
