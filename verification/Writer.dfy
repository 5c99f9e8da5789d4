/**
 Bounded durable block commits: stage, data sync, journal append, journal sync, map swap.

 The functions below are the writer's two operations over values, with every I/O failure as an
 argument and every disk state they pass through recorded in `images`. `DurableWriter` performs
 the same operations on its fields. What they guarantee is proved in `CommitOrder`.
 */
module Writer {
  import opened Base
  import opened Ownership
  import opened JournalFormat
  import opened Replay
  import opened Storage

  const JOURNAL_FLUSH_INTERVAL: nat := 2_000_000_000
  const JOURNAL_FLUSH_BYTES: nat := 8 * 1024 * 1024

  datatype StagedBlock = StagedBlock(lo: U64, hi: U64, len: U32, worker: U64, blake3: Digest)

  datatype DurableBlock = DurableBlock(sequence: U64, lo: U64, hi: U64, worker: U64, blake3: Digest)

  datatype WriterError =
    | Io
    | Rejected(error: IntervalMapError)
    | LengthMismatch(dataLength: U64, journalLength: U64)
    | IntervalLengthMismatch(dataLength: U64, intervalLength: nat)
    | EmptyBlock
    | BlockTooLarge(length: nat)
    | RangeOverflow(offset: U64, length: nat)
    | OverlappingStaged(existing: StagedBlock, lo: U64, hi: U64)
    | BatchLengthOverflow
    | SequenceExhausted
    | NoSpace(offset: U64)
    | Poisoned

  /** How a positional write ends; a failed one leaves `landed` in its target range. */
  datatype WriteFault = WriteOk | WriteRefused(landed: seq<Byte>) | WriteBroken(landed: seq<Byte>)

  /** Where a flush is interrupted, if anywhere; a failed append may leave `torn` bytes. */
  datatype FlushFault = FlushOk | DataSyncFails | AppendFails(index: nat, torn: nat) | JournalSyncFails

  datatype Faults = Faults(write: WriteFault, flush: FlushFault)

  datatype Writer = Writer(
    totalLength: U64,
    store: Store,
    images: seq<Store>,
    nextSequence: U64,
    staged: seq<StagedBlock>,
    stagedBytes: U64,
    firstStagedAt: Option<nat>,
    poisoned: bool,
    diskFullAt: Option<U64>,
    durableBytes: U64)

  datatype Outcome = Outcome(writer: Writer, owners: Owners, result: Result<seq<DurableBlock>, WriterError>)

  /** `try_new`: bind a part file and a journal that describe the same representation. */
  function Create(dataLength: U64, journalLength: U64, store: Store, nextSequence: U64): Result<Writer, WriterError>
  {
    if dataLength != journalLength then Err(LengthMismatch(dataLength, journalLength))
    else Ok(Writer(dataLength, store, [store], nextSequence, [], 0, None, false, None, 0))
  }

  /** The writer after a disk operation. */
  function On(w: Writer, s: Store): Writer { w.(store := s, images := w.images + [s]) }

  function RecordOf(b: StagedBlock): JournalRecord { BlockComplete(b.lo, b.len, b.blake3) }

  function RecordsFor(staged: seq<StagedBlock>): (r: seq<JournalRecord>)
    ensures |r| == |staged| && AllEncodable(r)
    ensures forall i :: 0 <= i < |staged| ==> r[i] == RecordOf(staged[i])
  {
    seq(|staged|, i requires 0 <= i < |staged| => RecordOf(staged[i]))
  }

  function Committed(staged: seq<StagedBlock>, from: nat): (r: seq<DurableBlock>)
    requires from + |staged| <= U64_MAX
    ensures |r| == |staged|
    ensures forall i :: 0 <= i < |staged| ==>
              r[i] == DurableBlock(from + i, staged[i].lo, staged[i].hi, staged[i].worker, staged[i].blake3)
  {
    seq(|staged|, i requires 0 <= i < |staged| =>
      DurableBlock(from + i, staged[i].lo, staged[i].hi, staged[i].worker, staged[i].blake3))
  }

  function CompleteAll(m: Owners, staged: seq<StagedBlock>): (r: Result<Owners, IntervalMapError>)
    requires |m| <= U64_MAX
    ensures r.Ok? ==> |r.value| == |m|
  {
    if staged == [] then Ok(m)
    else
      var n := |staged| - 1;
      match CompleteAll(m, staged[..n])
      case Err(e) => Err(e)
      case Ok(next) => CompleteRange(next, staged[n].lo, staged[n].hi, staged[n].worker)
  }

  function BytesOf(staged: seq<StagedBlock>): nat
  {
    if staged == [] then 0
    else
      var l := staged[|staged| - 1];
      BytesOf(staged[..|staged| - 1]) + if l.lo <= l.hi then l.hi - l.lo else 0
  }

  function Saturating(n: nat): U64 { Min(n, U64_MAX) }

  // ----- flush -----

  /** The store after `n` of the batch's frames have been appended. */
  function Appended(crc: Checksum, s: Store, recs: seq<JournalRecord>, from: nat, n: nat): Store
    requires AllEncodable(recs) && from + |recs| <= U64_MAX && n <= |recs|
  {
    AppendJournal(s, EncodeAll(crc, recs[..n], from))
  }

  /** The stores passed through while the first `n` frames are appended, in order. */
  function AppendImages(crc: Checksum, s: Store, recs: seq<JournalRecord>, from: nat, n: nat): (r: seq<Store>)
    requires AllEncodable(recs) && from + |recs| <= U64_MAX && n <= |recs|
    ensures |r| == n && forall i :: 0 <= i < n ==> r[i] == Appended(crc, s, recs, from, i + 1)
  {
    seq(n, i requires 0 <= i < n => Appended(crc, s, recs, from, i + 1))
  }

  /** What a failed append leaves behind: the frames before it and a prefix of its own. */
  function TornAppend(crc: Checksum, s: Store, recs: seq<JournalRecord>, from: nat, index: nat, torn: nat): Store
    requires AllEncodable(recs) && from + |recs| <= U64_MAX && index < |recs|
  {
    var frame := Frame(crc, from + index, recs[index]);
    AppendJournal(Appended(crc, s, recs, from, index), frame[..Min(torn, |frame|)])
  }

  /** The disk states of a commit and whether it got through. */
  datatype Commit = Commit(images: seq<Store>, done: bool)

  function CommitBatch(crc: Checksum, s: Store, recs: seq<JournalRecord>, from: nat, fault: FlushFault): (c: Commit)
    requires AllEncodable(recs) && from + |recs| <= U64_MAX
    ensures c.done ==> c.images != []
  {
    if fault == DataSyncFails then Commit([], false)
    else
      var clean := SyncData(s);
      if fault.AppendFails? && fault.index < |recs| then
        Commit([clean] + AppendImages(crc, clean, recs, from, fault.index)
               + [TornAppend(crc, clean, recs, from, fault.index, fault.torn)], false)
      else
        var images := [clean] + AppendImages(crc, clean, recs, from, |recs|);
        var full := Appended(crc, clean, recs, from, |recs|);
        if fault == JournalSyncFails then Commit(images, false)
        else Commit(images + [SyncJournal(full)], true)
  }

  function Visit(w: Writer, images: seq<Store>): Writer
  {
    if images == [] then w
    else w.(store := images[|images| - 1], images := w.images + images)
  }

  function Flush(crc: Checksum, w: Writer, m: Owners, fault: FlushFault): Outcome
    requires |m| <= U64_MAX
  {
    if w.poisoned then Outcome(w, m, Err(Poisoned))
    else if |m| != w.totalLength then Outcome(w, m, Err(IntervalLengthMismatch(w.totalLength, |m|)))
    else if w.staged == [] then Outcome(w, m, Ok([]))
    else
      match CompleteAll(m, w.staged)
      case Err(e) => Outcome(w.(poisoned := true), m, Err(Rejected(e)))
      case Ok(next) =>
        if w.nextSequence + |w.staged| > U64_MAX then Outcome(w, m, Err(SequenceExhausted))
        else
          var c := CommitBatch(crc, w.store, RecordsFor(w.staged), w.nextSequence, fault);
          var on := Visit(w, c.images);
          if !c.done then Outcome(on.(poisoned := true), m, Err(Io))
          else
            var w' := on.(nextSequence := w.nextSequence + |w.staged|,
                          durableBytes := Saturating(w.durableBytes + BytesOf(w.staged)),
                          staged := [], stagedBytes := 0, firstStagedAt := None);
            Outcome(w', next, Ok(Committed(w.staged, w.nextSequence)))
  }

  predicate Due(w: Writer, now: nat)
  {
    w.firstStagedAt.Some? && now >= w.firstStagedAt.value
    && now - w.firstStagedAt.value >= JOURNAL_FLUSH_INTERVAL
  }

  function FlushIfDue(crc: Checksum, w: Writer, m: Owners, now: nat, fault: FlushFault): Outcome
    requires |m| <= U64_MAX
  {
    if w.poisoned then Outcome(w, m, Err(Poisoned))
    else if Due(w, now) then Flush(crc, w, m, fault)
    else Outcome(w, m, Ok([]))
  }

  // ----- stage -----

  predicate Overlaps(b: StagedBlock, lo: nat, hi: nat) { b.lo < hi && lo < b.hi }

  /** The first staged block the range touches. */
  function FirstOverlap(staged: seq<StagedBlock>, lo: nat, hi: nat): Option<StagedBlock>
  {
    if staged == [] then None
    else if Overlaps(staged[0], lo, hi) then Some(staged[0])
    else FirstOverlap(staged[1..], lo, hi)
  }

  /** Every guard a write passes before any I/O happens. */
  function StageGuard(w: Writer, m: Owners, worker: U64, offset: U64, bytes: seq<Byte>): Result<Unit, WriterError>
    requires |m| <= U64_MAX
  {
    if w.poisoned then Err(Poisoned)
    else if |m| != w.totalLength then Err(IntervalLengthMismatch(w.totalLength, |m|))
    else if bytes == [] then Err(EmptyBlock)
    else if |bytes| > U32_MAX then Err(BlockTooLarge(|bytes|))
    else if offset + |bytes| > U64_MAX then Err(RangeOverflow(offset, |bytes|))
    else
      match CompleteRange(m, offset, offset + |bytes|, worker)
      case Err(e) => Err(Rejected(e))
      case Ok(_) =>
        match FirstOverlap(w.staged, offset, offset + |bytes|)
        case Some(b) => Err(OverlappingStaged(b, offset, offset + |bytes|))
        case None =>
          if w.stagedBytes + |bytes| > U64_MAX then Err(BatchLengthOverflow) else Ok(Unit)
  }

  /** What is in the target range after a failed write: `landed` if it has the right length. */
  function Landing(s: Store, offset: nat, landed: seq<Byte>, n: nat): (r: seq<Byte>)
    requires offset + n <= |s.data|
    ensures |r| == n
  {
    if |landed| == n then landed else s.data[offset..offset + n]
  }

  predicate Fits(w: Writer) { w.totalLength <= |w.store.data| == |w.store.dirty| }

  /** The writer once a block has been written and put in the batch, before any flush. */
  function Accept(hash: Hash, w: Writer, worker: U64, offset: U64, bytes: seq<Byte>, now: nat): Writer
    requires Fits(w) && offset + |bytes| <= w.totalLength && |bytes| <= U32_MAX
    requires w.stagedBytes + |bytes| <= U64_MAX
  {
    On(w, WriteData(w.store, offset, bytes)).(
      staged := w.staged + [StagedBlock(offset, offset + |bytes|, |bytes|, worker, hash(bytes))],
      stagedBytes := w.stagedBytes + |bytes|,
      firstStagedAt := if w.firstStagedAt.Some? then w.firstStagedAt else Some(now))
  }

  function Stage(crc: Checksum, hash: Hash, w: Writer, m: Owners, worker: U64, offset: U64, bytes: seq<Byte>,
                 now: nat, faults: Faults): Outcome
    requires |m| <= U64_MAX && Fits(w)
  {
    match StageGuard(w, m, worker, offset, bytes)
    case Err(e) => Outcome(w, m, Err(e))
    case Ok(_) =>
      match faults.write
      case WriteBroken(landed) =>
        var s := WriteData(w.store, offset, Landing(w.store, offset, landed, |bytes|));
        Outcome(On(w, s).(poisoned := true), m, Err(Io))
      case WriteRefused(landed) =>
        var s := WriteData(w.store, offset, Landing(w.store, offset, landed, |bytes|));
        var o := Flush(crc, On(w, s), m, faults.flush);
        Outcome(o.writer.(diskFullAt := Some(offset)), o.owners, Err(NoSpace(offset)))
      case WriteOk =>
        var w' := Accept(hash, w, worker, offset, bytes, now);
        if w'.stagedBytes >= JOURNAL_FLUSH_BYTES then Flush(crc, w', m, faults.flush)
        else Outcome(w', m, Ok([]))
  }
}
