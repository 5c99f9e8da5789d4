/**
 The recorded disk states leave nothing out.

 A crash can stop the machine in any recorded state, so what the crash theorems say is worth as much
 as the record is complete: between two recorded states there is never more than one disk operation.
 */
module DiskTrace {
  import opened Base
  import opened Ownership
  import opened JournalFormat
  import opened Replay
  import opened Storage
  import opened Writer
  import opened CommitOrder
  import opened Actor
  import A = Allocator
  import DurableWriting

  /** The record ends with the current state and has every state since it began. */
  ghost predicate Traced(w: Writer)
  {
    w.images != [] && w.store == w.images[|w.images| - 1] && Gapless(w.images)
  }

  lemma GaplessMore(images: seq<Store>, more: seq<Store>)
    requires images != [] && Gapless(images) && Gapless(more)
    requires more != [] ==> OneOperation(images[|images| - 1], more[0])
    ensures Gapless(images + more)
  {
    hide OneOperation;
  }

  lemma VisitTraced(w: Writer, more: seq<Store>)
    requires Traced(w) && Gapless(more) && (more != [] ==> OneOperation(w.store, more[0]))
    ensures Traced(Visit(w, more))
  {
    hide Gapless, OneOperation;
    GaplessMore(w.images, more);
  }

  lemma WroteTraced(w: Writer, offset: nat, bytes: seq<Byte>)
    requires Traced(w) && offset + |bytes| <= |w.store.data| == |w.store.dirty|
    ensures Traced(On(w, WriteData(w.store, offset, bytes)))
  {
    hide Gapless;
    var s := WriteData(w.store, offset, bytes);
    assert OneOperation(w.store, s);
    GaplessOne(s);
    GaplessMore(w.images, [s]);
  }

  lemma GaplessOne(s: Store)
    ensures Gapless([s])
  {
    hide OneOperation;
  }

  lemma AppendIsOne(a: Store, bytes: seq<Byte>)
    ensures OneOperation(a, AppendJournal(a, bytes))
  {
  }

  lemma AppendTwice(s: Store, a: seq<Byte>, b: seq<Byte>)
    ensures AppendJournal(AppendJournal(s, a), b) == AppendJournal(s, a + b)
  {
    assert s.journal + a + b == s.journal + (a + b);
  }

  /** Each frame is one append. */
  lemma AppendedNext(crc: Checksum, s: Store, recs: seq<JournalRecord>, from: nat, i: nat)
    requires AllEncodable(recs) && from + |recs| <= U64_MAX && i < |recs|
    ensures OneOperation(Appended(crc, s, recs, from, i), Appended(crc, s, recs, from, i + 1))
  {
    hide EncodeAll, Frame, OneOperation, AppendJournal, Encodable;
    DurableWriting.EncodeSnoc(crc, recs, from, i);
    var e, frame := EncodeAll(crc, recs[..i], from), Frame(crc, from + i, recs[i]);
    AppendTwice(s, e, frame);
    AppendIsOne(AppendJournal(s, e), frame);
  }

  lemma NothingAppended(crc: Checksum, s: Store, recs: seq<JournalRecord>, from: nat)
    requires AllEncodable(recs) && from + |recs| <= U64_MAX
    ensures Appended(crc, s, recs, from, 0) == s
  {
    assert recs[..0] == [] && s.journal + [] == s.journal;
  }

  /** The states of the sync and the first `n` appends. */
  lemma {:induction false} AppendsGapless(crc: Checksum, s: Store, recs: seq<JournalRecord>, from: nat, n: nat)
    requires AllEncodable(recs) && from + |recs| <= U64_MAX && n <= |recs|
    ensures var images := [s] + AppendImages(crc, s, recs, from, n);
            Gapless(images) && images[|images| - 1] == Appended(crc, s, recs, from, n)
  {
    hide Appended, OneOperation, Gapless;
    NothingAppended(crc, s, recs, from);
    if n == 0 {
      GaplessOne(s);
      assert [s] + AppendImages(crc, s, recs, from, 0) == [s];
    } else {
      AppendsGapless(crc, s, recs, from, n - 1);
      AppendedNext(crc, s, recs, from, n - 1);
      var before, last := [s] + AppendImages(crc, s, recs, from, n - 1), Appended(crc, s, recs, from, n);
      GaplessOne(last);
      GaplessMore(before, [last]);
      assert [s] + AppendImages(crc, s, recs, from, n) == before + [last];
    }
  }

  lemma CommitGapless(crc: Checksum, s: Store, recs: seq<JournalRecord>, from: nat, fault: FlushFault)
    requires AllEncodable(recs) && from + |recs| <= U64_MAX
    ensures var images := CommitBatch(crc, s, recs, from, fault).images;
            Gapless(images) && (images != [] ==> OneOperation(s, images[0]))
  {
    hide Gapless, WriteData, AppendImages, Appended, TornAppend;
    if fault != DataSyncFails {
      var clean := SyncData(s);
      assert OneOperation(s, clean);
      if fault.AppendFails? && fault.index < |recs| {
        var before := [clean] + AppendImages(crc, clean, recs, from, fault.index);
        AppendsGapless(crc, clean, recs, from, fault.index);
        TornIsOne(crc, clean, recs, from, fault.index, fault.torn);
        var torn := TornAppend(crc, clean, recs, from, fault.index, fault.torn);
        GaplessOne(torn);
        GaplessMore(before, [torn]);
      } else {
        var before := [clean] + AppendImages(crc, clean, recs, from, |recs|);
        AppendsGapless(crc, clean, recs, from, |recs|);
        var end := SyncJournal(Appended(crc, clean, recs, from, |recs|));
        GaplessOne(end);
        GaplessMore(before, [end]);
      }
    } else {
      NothingGapless();
    }
  }

  lemma NothingGapless()
    ensures Gapless([])
  {
  }

  lemma TornIsOne(crc: Checksum, s: Store, recs: seq<JournalRecord>, from: nat, index: nat, torn: nat)
    requires AllEncodable(recs) && from + |recs| <= U64_MAX && index < |recs|
    ensures OneOperation(Appended(crc, s, recs, from, index), TornAppend(crc, s, recs, from, index, torn))
  {
    hide Appended, Frame, AppendJournal, OneOperation;
    var frame := Frame(crc, from + index, recs[index]);
    AppendIsOne(Appended(crc, s, recs, from, index), frame[..Min(torn, |frame|)]);
  }

  lemma FlushTraced(crc: Checksum, w: Writer, m: Owners, fault: FlushFault)
    requires |m| <= U64_MAX && Traced(w)
    ensures Traced(Flush(crc, w, m, fault).writer)
  {
    hide CommitBatch, CompleteAll, Gapless, OneOperation, BytesOf;
    if w.nextSequence + |w.staged| <= U64_MAX {
      var recs := RecordsFor(w.staged);
      CommitGapless(crc, w.store, recs, w.nextSequence, fault);
      VisitTraced(w, CommitBatch(crc, w.store, recs, w.nextSequence, fault).images);
    }
  }

  lemma StageTraced(crc: Checksum, hash: Hash, w: Writer, m: Owners, worker: U64, offset: U64, bytes: seq<Byte>,
                    now: nat, faults: Faults)
    requires |m| == w.totalLength <= U64_MAX && Fits(w) && Traced(w)
    requires StageGuard(w, m, worker, offset, bytes).Ok? && offset + |bytes| <= |m|
    requires 0 < |bytes| <= U32_MAX && w.stagedBytes + |bytes| <= U64_MAX
    ensures Traced(Stage(crc, hash, w, m, worker, offset, bytes, now, faults).writer)
  {
    hide Flush, StageGuard, WriteData, Gapless;
    match faults.write
    case WriteOk =>
      WroteTraced(w, offset, bytes);
      FlushTraced(crc, Accept(hash, w, worker, offset, bytes, now), m, faults.flush);
    case WriteRefused(landed) =>
      var left := Landing(w.store, offset, landed, |bytes|);
      WroteTraced(w, offset, left);
      FlushTraced(crc, On(w, WriteData(w.store, offset, left)), m, faults.flush);
    case WriteBroken(landed) => WroteTraced(w, offset, Landing(w.store, offset, landed, |bytes|));
  }

  /** Every command, whatever fails, records each disk operation it makes. */
  lemma StepTraced(crc: Checksum, hash: Hash, a: Actor, c: Command, faults: Faults)
    requires Fitting(a) && Traced(a.writer)
    ensures Traced(Step(crc, hash, a, c, faults).actor.writer)
  {
    hide Flush, Traced, A.Decide, StageGuard, CompleteRange, Accept;
    FlushTraced(crc, a.writer, a.owners, faults.flush);
    if c.Write? && StageGuard(a.writer, a.owners, c.worker, c.offset, c.bytes).Ok? {
      GuardMeansWritable(a.writer, a.owners, c.worker, c.offset, c.bytes);
      StageTraced(crc, hash, a.writer, a.owners, c.worker, c.offset, c.bytes, c.now, faults);
    }
  }

  /** So does every run. */
  lemma {:induction false} RunTraced(crc: Checksum, hash: Hash, states: seq<Actor>, hists: seq<History>,
                                     events: seq<Event>, i: nat)
    requires IsTrace(crc, hash, states, hists, events) && i <= |events| && Traced(states[0].writer)
    ensures Traced(states[i].writer)
  {
    hide Step, Traced, HistoryAfter;
    if i > 0 {
      RunTraced(crc, hash, states, hists, events, i - 1);
      var e := events[i - 1];
      StepTraced(crc, hash, states[i - 1], e.command, e.faults);
    }
  }
}
