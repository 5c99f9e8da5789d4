/**
 Reconciling one download's part file, journal and record after an unclean shutdown.

 `Reconcile` is the decision sequence over values. The journal alone decides which bytes are
 complete; a byte the part file no longer holds is not, whatever the journal says. The theorems
 here say what map is rebuilt; `CrashSafety` ties it to the bytes that were accepted.
 */
module Recovery {
  import opened Base
  import opened Ownership
  import opened Intervals
  import opened JournalFormat
  import opened Replay
  import opened JournalState

  const RECOVERY_WORKER: U64 := 0xFFFF_FFFF_FFFF_FFFF
  const I64_MAX: int := 0x7FFF_FFFF_FFFF_FFFF

  datatype DownloadState = Queued | Probing | Transferring | Paused | Completed | Failed

  datatype FailureKind =
    | PartFileMissing
    | LengthUnknown
    | JournalUnreadable
    | JournalMismatched
    | JournalInvalid

  datatype Metadata = Metadata(
    state: DownloadState,
    totalLength: Option<U64>,
    rangeSupportKnown: bool,
    coveredBytes: nat,
    failure: Option<FailureKind>)

  /** What is on disk for the download: either file may be missing. */
  datatype Artifacts = Artifacts(part: Option<seq<Byte>>, journal: Option<seq<Byte>>)

  datatype Extent = Intact | Reextended(observed: nat, total: U64) | Overlong(observed: nat, total: U64)

  datatype Reconciliation = Reconciliation(
    state: DownloadState,
    failure: Option<FailureKind>,
    owners: Owners,
    coveredBytes: nat,
    nextSequence: nat,
    sealed: Option<Digest>,
    extent: Extent,
    tailRepaired: bool)

  datatype RecoveryError =
    | UnknownDownload
    | AlreadyTerminal(state: DownloadState)
    | UnsupportedLength(length: U64)
    | RebuildRejected(error: IntervalMapError)

  /** The result together with the record and the files as reconciliation leaves them. */
  datatype Recovered = Recovered(report: Reconciliation, metadata: Metadata, files: Artifacts)

  datatype Range = Range(lo: nat, hi: nat)

  /** Appends a range, extending the last one when it touches. */
  function PushRange(merged: seq<Range>, lo: nat, hi: nat): seq<Range>
  {
    if merged != [] && merged[|merged| - 1].hi == lo
    then merged[..|merged| - 1] + [Range(merged[|merged| - 1].lo, hi)]
    else merged + [Range(lo, hi)]
  }

  /** Blocks that touch become one range. */
  function MergeAdjacent(blocks: seq<CompletedBlock>): seq<Range>
  {
    if blocks == [] then []
    else
      var b := blocks[|blocks| - 1];
      PushRange(MergeAdjacent(blocks[..|blocks| - 1]), b.offset, End(b))
  }

  /**
   Each range is granted to the recovery identity and completed in turn. A range past `u64` is
   the overflow exit of the merge; `RebuildExact` shows that no exit is taken.
   */
  function Rebuild(length: U64, ranges: seq<Range>): (r: Result<Owners, IntervalMapError>)
    ensures r.Ok? ==> |r.value| == length
  {
    if ranges == [] then Ok(seq(length, _ => Pending))
    else
      var r := ranges[|ranges| - 1];
      match Rebuild(length, ranges[..|ranges| - 1])
      case Err(e) => Err(e)
      case Ok(m) =>
        if r.lo > U64_MAX || r.hi > U64_MAX then Err(InvalidRange(0, 0, length))
        else
          match Grant(m, r.lo, r.hi, RECOVERY_WORKER)
          case Err(e) => Err(e)
          case Ok(granted) => CompleteRange(granted, r.lo, r.hi, RECOVERY_WORKER)
  }

  function TotalBytes(ranges: seq<Range>): nat
  {
    if ranges == [] then 0
    else
      var r := ranges[|ranges| - 1];
      TotalBytes(ranges[..|ranges| - 1]) + if r.lo <= r.hi then r.hi - r.lo else 0
  }

  /** `PartFile::open_existing`: the extent only ever grows, with zeros. */
  function Reextend(part: seq<Byte>, total: nat): seq<Byte>
  {
    if |part| < total then part + seq(total - |part|, _ => 0) else part
  }

  function ExtentOf(part: seq<Byte>, total: U64): Extent
  {
    if |part| < total then Reextended(|part|, total)
    else if |part| > total then Overlong(|part|, total)
    else Intact
  }

  function Fail(meta: Metadata, files: Artifacts, kind: FailureKind): Recovered
  {
    var length := if meta.totalLength.Some? then meta.totalLength.value else 0;
    Recovered(
      Reconciliation(DownloadState.Failed, Some(kind), seq(length, _ => Pending), 0, 0, None, Intact, false),
      meta.(state := DownloadState.Failed, failure := Some(kind), coveredBytes := 0),
      files)
  }

  function Persist(meta: Metadata, files: Artifacts, report: Reconciliation, length: U64): Recovered
  {
    Recovered(
      report,
      meta.(state := report.state, failure := None, totalLength := Some(length),
            coveredBytes := report.coveredBytes,
            rangeSupportKnown := meta.rangeSupportKnown && meta.totalLength == Some(length)),
      files)
  }

  function Reconcile(crc: Checksum, id: TransferId, record: Option<Metadata>, files: Artifacts):
    Result<Recovered, RecoveryError>
    requires files.journal.Some? ==> |files.journal.value| <= U64_MAX
  {
    if record.None? then Err(UnknownDownload)
    else
      var meta := record.value;
      if meta.state.Completed? || meta.state.Failed? then Err(AlreadyTerminal(meta.state))
      else if files.part.None? then Ok(Fail(meta, files, PartFileMissing))
      else if meta.totalLength.None? then Ok(Fail(meta, files, LengthUnknown))
      else if meta.totalLength.value > I64_MAX then Err(UnsupportedLength(meta.totalLength.value))
      else
        var total, part := meta.totalLength.value, files.part.value;
        var grown := files.(part := Some(Reextend(part, total)));
        if files.journal.None? then
          Ok(Persist(meta, grown,
                     Reconciliation(Paused, None, seq(total, _ => Pending), 0, 0, None, ExtentOf(part, total), false),
                     total))
        else ReconcileJournal(crc, id, meta, grown, total, part)
  }

  function ReconcileJournal(crc: Checksum, id: TransferId, meta: Metadata, files: Artifacts, total: U64,
                            part: seq<Byte>): Result<Recovered, RecoveryError>
    requires files.journal.Some? && |files.journal.value| <= U64_MAX
  {
    var b := files.journal.value;
    if ReplayBytes(crc, b).Err? then Ok(Fail(meta, files, JournalUnreadable))
    else
      var o := ReplayBytes(crc, b).value;
      var repaired := files.(journal := Some(Repair(crc, b)));
      if o.header.transferId != id || o.header.totalLength != total then
        Ok(Fail(meta, repaired, JournalMismatched))
      else
        match Effective(o.header, RecordsOf(o.records))
        case Err(_) => Ok(Fail(meta, repaired, JournalInvalid))
        case Ok(s) =>
          var ranges := MergeAdjacent(Inside(s.blocks, |part|));
          match Rebuild(s.effectiveLength, ranges)
          case Err(e) => Err(RebuildRejected(e))
          case Ok(m) =>
            Ok(Persist(meta, repaired,
                       Reconciliation(Paused, None, m, TotalBytes(ranges), |o.records|, s.sealed,
                                      ExtentOf(part, total), o.stop != CleanEof),
                       s.effectiveLength))
  }

  // ----- the rebuilt map -----

  ghost predicate InRange(r: Range, b: nat) { r.lo <= b < r.hi }

  ghost predicate InRanges(ranges: seq<Range>, b: nat)
  {
    exists i :: 0 <= i < |ranges| && InRange(ranges[i], b)
  }

  ghost predicate RangesOrdered(ranges: seq<Range>)
  {
    && (forall i :: 0 <= i < |ranges| ==> ranges[i].lo < ranges[i].hi)
    && (forall i, j :: 0 <= i < j < |ranges| ==> ranges[i].hi <= ranges[j].lo)
  }

  lemma InRangesLast(ranges: seq<Range>, b: nat)
    requires ranges != []
    ensures InRanges(ranges, b) <==>
            InRanges(ranges[..|ranges| - 1], b) || InRange(ranges[|ranges| - 1], b)
  {
    var n := |ranges| - 1;
    if InRanges(ranges[..n], b) {
      var i :| 0 <= i < n && InRange(ranges[..n][i], b);
      assert InRange(ranges[i], b);
    }
    if i :| 0 <= i < |ranges| && InRange(ranges[i], b) {
      assert i < n ==> InRange(ranges[..n][i], b);
    }
  }

  lemma CoveredLast(blocks: seq<CompletedBlock>, b: nat)
    requires blocks != []
    ensures var l := blocks[|blocks| - 1];
            Covered(blocks, b) <==> Covered(blocks[..|blocks| - 1], b) || l.offset <= b < End(l)
  {
    var n := |blocks| - 1;
    if Covered(blocks[..n], b) {
      var i :| 0 <= i < n && blocks[..n][i].offset <= b < End(blocks[..n][i]);
      assert blocks[i].offset <= b < End(blocks[i]);
    }
    if i :| 0 <= i < |blocks| && blocks[i].offset <= b < End(blocks[i]) {
      assert i < n ==> blocks[..n][i].offset <= b < End(blocks[..n][i]);
    }
  }

  ghost function LastEnd(ranges: seq<Range>): nat
  {
    if ranges == [] then 0 else ranges[|ranges| - 1].hi
  }

  lemma PushRangeOrdered(merged: seq<Range>, lo: nat, hi: nat)
    requires RangesOrdered(merged) && LastEnd(merged) <= lo < hi
    ensures RangesOrdered(PushRange(merged, lo, hi)) && LastEnd(PushRange(merged, lo, hi)) == hi
  {
  }

  lemma PushRangeBytes(merged: seq<Range>, lo: nat, hi: nat, b: nat)
    requires RangesOrdered(merged) && LastEnd(merged) <= lo < hi
    ensures InRanges(PushRange(merged, lo, hi), b) <==> InRanges(merged, b) || lo <= b < hi
  {
    hide InRanges;
    var next := PushRange(merged, lo, hi);
    InRangesLast(next, b);
    if merged != [] && merged[|merged| - 1].hi == lo {
      InRangesLast(merged, b);
      assert next[..|next| - 1] == merged[..|merged| - 1];
    } else {
      assert next[..|next| - 1] == merged;
    }
  }

  /** Merging keeps the bytes, the order and the last end. */
  lemma {:induction false} MergeKeepsBytes(blocks: seq<CompletedBlock>)
    requires Ordered(blocks) && NonEmpty(blocks)
    ensures RangesOrdered(MergeAdjacent(blocks))
    ensures LastEnd(MergeAdjacent(blocks)) == if blocks == [] then 0 else End(blocks[|blocks| - 1])
    ensures forall b :: InRanges(MergeAdjacent(blocks), b) <==> Covered(blocks, b)
  {
    hide PushRange, InRanges, Covered, RangesOrdered;
    if blocks == [] {
      NothingMerged();
    } else {
      var init, l := blocks[..|blocks| - 1], blocks[|blocks| - 1];
      MergeKeepsBytes(init);
      PushRangeOrdered(MergeAdjacent(init), l.offset, End(l));
      forall b ensures InRanges(MergeAdjacent(blocks), b) <==> Covered(blocks, b) {
        PushRangeBytes(MergeAdjacent(init), l.offset, End(l), b);
        CoveredLast(blocks, b);
      }
    }
  }

  lemma NothingMerged()
    ensures RangesOrdered([]) && forall b :: !InRanges([], b) && !Covered([], b)
  {
  }

  /** Rebuilding never fails on ordered ranges inside the length, and completes exactly them. */
  lemma {:induction false} RebuildExact(length: U64, ranges: seq<Range>)
    requires RangesOrdered(ranges)
    requires forall i :: 0 <= i < |ranges| ==> ranges[i].hi <= length
    ensures Rebuild(length, ranges).Ok?
    ensures var m := Rebuild(length, ranges).value;
            && (forall b :: 0 <= b < length ==> m[b] == if InRanges(ranges, b) then Complete else Pending)
            && Count(m, Complete) == TotalBytes(ranges)
  {
    if ranges == [] {
      CountUniform(seq(length, _ => Pending), Complete, Pending);
    } else {
      RebuildExact(length, ranges[..|ranges| - 1]);
      RebuildStep(length, ranges, Rebuild(length, ranges[..|ranges| - 1]).value);
    }
  }

  lemma RebuildStep(length: U64, ranges: seq<Range>, m: Owners)
    requires RangesOrdered(ranges) && ranges != [] && ranges[|ranges| - 1].hi <= length == |m|
    requires forall b :: 0 <= b < length ==>
               m[b] == if InRanges(ranges[..|ranges| - 1], b) then Complete else Pending
    requires Count(m, Complete) == TotalBytes(ranges[..|ranges| - 1])
    requires Rebuild(length, ranges[..|ranges| - 1]) == Ok(m)
    ensures Rebuild(length, ranges).Ok?
    ensures var next := Rebuild(length, ranges).value;
            && (forall b :: 0 <= b < length ==> next[b] == if InRanges(ranges, b) then Complete else Pending)
            && Count(next, Complete) == TotalBytes(ranges)
  {
    hide InRanges, Count;
    var init, r := ranges[..|ranges| - 1], ranges[|ranges| - 1];
    LastIsBeyond(ranges);
    forall b | r.lo <= b < r.hi ensures m[b] == Pending {
      assert InRange(r, b);
    }
    var granted := Paint(m, r.lo, r.hi, InProgress(RECOVERY_WORKER));
    var next := Paint(granted, r.lo, r.hi, Complete);
    assert Rebuild(length, ranges) == Ok(next);
    PaintMovesCount(m, r.lo, r.hi, Pending, InProgress(RECOVERY_WORKER), Complete);
    PaintMovesCount(granted, r.lo, r.hi, InProgress(RECOVERY_WORKER), Complete, Complete);
    forall b | 0 <= b < length ensures next[b] == if InRanges(ranges, b) then Complete else Pending {
      InRangesLast(ranges, b);
    }
  }

  lemma LastIsBeyond(ranges: seq<Range>)
    requires RangesOrdered(ranges) && ranges != []
    ensures var r := ranges[|ranges| - 1];
            r.lo < r.hi && forall b :: InRange(r, b) ==> !InRanges(ranges[..|ranges| - 1], b)
  {
  }

  // ----- what a reconciled download looks like -----

  lemma EffectiveBlocks(h: FileHeader, recs: seq<JournalRecord>)
    requires Effective(h, recs).Ok?
    ensures var s := Effective(h, recs).value;
            && Ordered(s.blocks) && NonEmpty(s.blocks)
            && forall i :: 0 <= i < |s.blocks| ==> End(s.blocks[i]) <= s.effectiveLength
  {
    hide Effective, BlocksOf, LengthAt, Inside;
    EffectiveClosedForm(h, recs);
    EffectiveSucceedsIff(h, recs);
    var s := Effective(h, recs).value;
    FittingBlocksNonEmpty(h, recs);
    SameMembers(s.blocks, Inside(BlocksOf(recs), s.effectiveLength));
    forall i | 0 <= i < |s.blocks| ensures s.blocks[i].len > 0 && End(s.blocks[i]) <= s.effectiveLength {
      assert s.blocks[i] in s.blocks;
    }
  }

  lemma {:induction false} InsideOrdered(blocks: seq<CompletedBlock>, length: nat)
    requires Ordered(blocks) && NonEmpty(blocks)
    ensures Ordered(Inside(blocks, length)) && NonEmpty(Inside(blocks, length))
  {
    if blocks != [] {
      var init, l := blocks[..|blocks| - 1], blocks[|blocks| - 1];
      InsideOrdered(init, length);
      InsideMembers(init, length);
      forall i | 0 <= i < |Inside(init, length)| ensures End(Inside(init, length)[i]) <= l.offset {
        assert Inside(init, length)[i] in init;
      }
    }
  }

  /** The map rebuilt from surviving blocks that fit the part file. */
  lemma RebuildBlocks(blocks: seq<CompletedBlock>, observed: nat, length: U64)
    requires Ordered(blocks) && NonEmpty(blocks)
    requires forall i :: 0 <= i < |blocks| ==> End(blocks[i]) <= length
    ensures var kept := Inside(blocks, observed);
            var ranges := MergeAdjacent(kept);
            && Rebuild(length, ranges).Ok?
            && var m := Rebuild(length, ranges).value;
               && (forall b :: 0 <= b < length ==> m[b] == if Covered(kept, b) then Complete else Pending)
               && Count(m, Complete) == TotalBytes(ranges)
  {
    hide Rebuild, MergeAdjacent, Covered, InRanges, Count, TotalBytes;
    var kept := Inside(blocks, observed);
    InsideOrdered(blocks, observed);
    InsideMembers(blocks, observed);
    MergeKeepsBytes(kept);
    var ranges := MergeAdjacent(kept);
    RangesEnd(ranges);
    if kept != [] {
      assert kept[|kept| - 1] in blocks;
    }
    RebuildExact(length, ranges);
  }

  lemma RangesEnd(ranges: seq<Range>)
    requires RangesOrdered(ranges)
    ensures forall i :: 0 <= i < |ranges| ==> ranges[i].hi <= LastEnd(ranges)
  {
  }

  /** The bytes replay and their records fold. */
  ghost predicate Replays(crc: Checksum, journal: seq<Byte>)
  {
    && |journal| <= U64_MAX && ReplayBytes(crc, journal).Ok?
    && var o := ReplayBytes(crc, journal).value; Effective(o.header, RecordsOf(o.records)).Ok?
  }

  ghost function HeaderOf(crc: Checksum, journal: seq<Byte>): FileHeader
    requires Replays(crc, journal)
  {
    ReplayBytes(crc, journal).value.header
  }

  /** What a journal says. */
  ghost function Says(crc: Checksum, journal: seq<Byte>): EffectiveState
    requires Replays(crc, journal)
  {
    var o := ReplayBytes(crc, journal).value;
    Effective(o.header, RecordsOf(o.records)).value
  }

  /** The journal's verdict on a download that can be reconciled. */
  ghost predicate Reconcilable(crc: Checksum, id: TransferId, meta: Metadata, files: Artifacts)
  {
    && !meta.state.Completed? && !meta.state.Failed?
    && files.part.Some? && meta.totalLength.Some? && meta.totalLength.value <= I64_MAX
    && files.journal.Some? && Replays(crc, files.journal.value)
    && HeaderOf(crc, files.journal.value).transferId == id
    && HeaderOf(crc, files.journal.value).totalLength == meta.totalLength.value
  }

  /**
   The row a paused download leaves: its length and covered bytes are those of the map, nothing failed,
   and range support is still known exactly if it was and no truncation made the representation another.
   */
  ghost predicate ResumedRow(crc: Checksum, meta: Metadata, journal: seq<Byte>, r: Recovered)
    requires Replays(crc, journal) && meta.totalLength.Some?
  {
    var last := LastTruncate(RecordsOf(ReplayBytes(crc, journal).value.records));
    && r.metadata.state == Paused && r.metadata.failure == None
    && r.metadata.totalLength == Some(|r.report.owners|)
    && r.metadata.coveredBytes == Count(r.report.owners, Complete)
    && (r.metadata.rangeSupportKnown <==>
          meta.rangeSupportKnown && (last.None? || last.value == meta.totalLength.value))
  }

  /** What the report says of the part file and the journal as they were found. */
  ghost predicate ReportedFiles(files: Artifacts, total: U64, r: Recovered)
    requires files.part.Some?
  {
    var found := |files.part.value|;
    && (r.report.extent == Intact <==> found == total)
    && (r.report.extent == Reextended(found, total) <==> found < total)
    && (r.report.extent == Overlong(found, total) <==> found > total)
    && (r.report.tailRepaired <==> r.files.journal != files.journal)
    && (found >= total ==> r.files.part == files.part)
  }

  /** Recovery pauses the download with a map that is complete exactly on the surviving blocks. */
  lemma ReconcileExact(crc: Checksum, id: TransferId, meta: Metadata, files: Artifacts)
    requires Reconcilable(crc, id, meta, files)
    ensures var s := Says(crc, files.journal.value);
            var kept := Inside(s.blocks, |files.part.value|);
            && Reconcile(crc, id, Some(meta), files).Ok?
            && var r := Reconcile(crc, id, Some(meta), files).value;
               && r.report.state == Paused && |r.report.owners| == s.effectiveLength
               && (forall b :: 0 <= b < s.effectiveLength ==>
                     r.report.owners[b] == if Covered(kept, b) then Complete else Pending)
               && r.report.coveredBytes == Count(r.report.owners, Complete)
               && r.report.nextSequence == |ReplayBytes(crc, files.journal.value).value.records|
               && r.report.sealed == s.sealed
               && r.metadata.state == Paused && r.metadata.totalLength == Some(s.effectiveLength)
               && ResumedRow(crc, meta, files.journal.value, r) && ReportedFiles(files, meta.totalLength.value, r)
               && r.report.failure == None && r.files.part == Some(Reextend(files.part.value, meta.totalLength.value))
               && r.files.journal == Some(Repair(crc, files.journal.value))
  {
    hide ReplayBytes, Effective, Rebuild, MergeAdjacent, Inside, Covered, Count, TotalBytes, Repair;
    var o := ReplayBytes(crc, files.journal.value).value;
    var recs := RecordsOf(o.records);
    EffectiveBlocks(o.header, recs);
    EffectiveClosedForm(o.header, recs);
    LengthIsLast(o.header, recs, |recs|);
    assert recs[..|recs|] == recs;
    RepairChanges(crc, files.journal.value);
    var s := Says(crc, files.journal.value);
    RebuildBlocks(s.blocks, |files.part.value|, s.effectiveLength);
  }

  /**
   Without a journal nothing is known to be complete; the row keeps its length and its range support.
   */
  lemma ReconcileWithout(crc: Checksum, id: TransferId, meta: Metadata, files: Artifacts)
    requires !meta.state.Completed? && !meta.state.Failed? && files.part.Some? && files.journal.None?
    requires meta.totalLength.Some? && meta.totalLength.value <= I64_MAX
    ensures Reconcile(crc, id, Some(meta), files).Ok?
    ensures var r := Reconcile(crc, id, Some(meta), files).value;
            && r.metadata == meta.(state := Paused, failure := None, coveredBytes := 0)
            && r.report.owners == seq(meta.totalLength.value, _ => Pending) && r.report.state == Paused
            && r.report.coveredBytes == r.report.nextSequence == 0 && r.report.sealed == None
            && r.report.failure == None && ReportedFiles(files, meta.totalLength.value, r)
  {
  }

  /**
   A failed download keeps its length and range support, covers nothing, and its row names the reason
   the report gives. No byte of the part file is lost, and the journal loses at most a damaged tail.
   */
  lemma FailedRow(crc: Checksum, id: TransferId, meta: Metadata, files: Artifacts)
    requires files.journal.Some? ==> |files.journal.value| <= U64_MAX
    requires !meta.state.Completed? && !meta.state.Failed?
    ensures var r := Reconcile(crc, id, Some(meta), files);
            r.Ok? && r.value.report.failure.Some? ==>
              && r.value.metadata
                 == meta.(state := DownloadState.Failed, failure := r.value.report.failure, coveredBytes := 0)
              && r.value.report.state == DownloadState.Failed && r.value.report.coveredBytes == 0
              && r.value.report.nextSequence == 0 && r.value.report.sealed == None
              && |r.value.report.owners| == (if meta.totalLength.Some? then meta.totalLength.value else 0)
              && (forall b :: 0 <= b < |r.value.report.owners| ==> r.value.report.owners[b] == Pending)
              && KeptFiles(crc, files, r.value.files)
  {
    hide ReplayBytes, Effective, Rebuild, MergeAdjacent, Inside, TotalBytes, Repair;
    if files.journal.Some? && ReplayBytes(crc, files.journal.value).Ok? {
      RepairCuts(crc, files.journal.value);
    }
  }

  ghost predicate KeptFiles(crc: Checksum, before: Artifacts, after: Artifacts)
  {
    && (before.part.None? <==> after.part.None?) && (before.part.Some? ==> before.part.value <= after.part.value)
    && (before.journal.None? <==> after.journal.None?)
    && (before.journal.Some? ==> after.journal.value <= before.journal.value)
    && (before.journal.Some? && |before.journal.value| <= U64_MAX && ReplayBytes(crc, before.journal.value).Err? ==>
          after.journal == before.journal)
  }

  lemma RepairCuts(crc: Checksum, b: seq<Byte>)
    requires |b| <= U64_MAX && ReplayBytes(crc, b).Ok?
    ensures Repair(crc, b) <= b
  {
    hide ReplayBytes;
    ReplayCanonical(crc, b);
  }

  /** A download ends paused exactly when its record, part file and journal allow it. */
  lemma ReconcileRefusals(crc: Checksum, id: TransferId, meta: Metadata, files: Artifacts)
    requires files.journal.Some? ==> |files.journal.value| <= U64_MAX
    ensures var r := Reconcile(crc, id, Some(meta), files);
            (r.Ok? && r.value.report.state == Paused) <==>
            || Reconcilable(crc, id, meta, files)
            || (&& !meta.state.Completed? && !meta.state.Failed? && files.part.Some? && files.journal.None?
                && meta.totalLength.Some? && meta.totalLength.value <= I64_MAX)
    ensures Reconcile(crc, id, None, files) == Err(UnknownDownload)
    ensures meta.state.Completed? || meta.state.Failed? ==>
              Reconcile(crc, id, Some(meta), files) == Err(AlreadyTerminal(meta.state))
  {
    hide ReplayBytes, Effective, Rebuild, MergeAdjacent, Inside, TotalBytes, Repair;
    if Reconcilable(crc, id, meta, files) {
      ReconcileExact(crc, id, meta, files);
    }
  }

  /** The reason given for a failed download, and that the map rebuild is never the one. */
  lemma ReconcileReasons(crc: Checksum, id: TransferId, meta: Metadata, files: Artifacts)
    requires files.journal.Some? ==> |files.journal.value| <= U64_MAX
    requires !meta.state.Completed? && !meta.state.Failed?
    ensures var r := Reconcile(crc, id, Some(meta), files);
            var measured := files.part.Some? && meta.totalLength.Some?;
            && (r.Err? <==> measured && meta.totalLength.value > 9_223_372_036_854_775_807)
            && (r.Err? ==> r.error == UnsupportedLength(meta.totalLength.value))
            && (r.Ok? ==>
                  var why := r.value.report.failure;
                  var journal := if files.journal.Some? then files.journal.value else [];
                  && (why == Some(PartFileMissing) <==> files.part.None?)
                  && (why == Some(LengthUnknown) <==> files.part.Some? && meta.totalLength.None?)
                  && (why == Some(JournalUnreadable) <==>
                        measured && files.journal.Some? && ReplayBytes(crc, journal).Err?)
                  && (why == Some(JournalMismatched) <==>
                        && measured && files.journal.Some? && ReplayBytes(crc, journal).Ok?
                        && !Belongs(ReplayBytes(crc, journal).value.header, id, meta.totalLength.value))
                  && (why == Some(JournalInvalid) <==>
                        && measured && files.journal.Some? && ReplayBytes(crc, journal).Ok?
                        && Belongs(ReplayBytes(crc, journal).value.header, id, meta.totalLength.value)
                        && !Replays(crc, journal)))
  {
    hide ReplayBytes, Effective, Rebuild, MergeAdjacent, Inside, TotalBytes, Repair, Covered, Count;
    if Reconcilable(crc, id, meta, files) {
      ReconcileExact(crc, id, meta, files);
    }
  }

  /** The journal was written for this transfer and this representation. */
  predicate Belongs(h: FileHeader, id: TransferId, total: U64) { h.transferId == id && h.totalLength == total }

  // ----- reconciling twice -----

  ghost predicate SameVerdict(a: Reconciliation, b: Reconciliation)
  {
    && a.state == b.state && a.owners == b.owners
    && a.coveredBytes == b.coveredBytes && a.nextSequence == b.nextSequence
  }

  lemma {:induction false} InsideAll(blocks: seq<CompletedBlock>, length: nat)
    requires forall i :: 0 <= i < |blocks| ==> End(blocks[i]) <= length
    ensures Inside(blocks, length) == blocks
  {
    if blocks != [] {
      InsideAll(blocks[..|blocks| - 1], length);
    }
  }

  /** A block that no longer fits takes its first byte out of the coverage. */
  lemma DroppedByte(blocks: seq<CompletedBlock>, length: nat, i: nat)
    requires Ordered(blocks) && NonEmpty(blocks) && i < |blocks| && End(blocks[i]) > length
    ensures Covered(blocks, blocks[i].offset) && !Covered(Inside(blocks, length), blocks[i].offset)
  {
    var b, kept := blocks[i].offset, Inside(blocks, length);
    assert blocks[i].offset <= b < End(blocks[i]);
    InsideMembers(blocks, length);
    forall k | 0 <= k < |kept| ensures !(kept[k].offset <= b < End(kept[k])) {
      assert kept[k] in blocks;
      var j :| 0 <= j < |blocks| && blocks[j] == kept[k];
    }
  }

  lemma SecondLook(crc: Checksum, id: TransferId, meta: Metadata, files: Artifacts, next: Recovered)
    requires Reconcilable(crc, id, meta, files)
    requires Reconcile(crc, id, Some(meta), files) == Ok(next)
    requires Says(crc, files.journal.value).effectiveLength == meta.totalLength.value
    ensures Reconcilable(crc, id, next.metadata, next.files)
    ensures Says(crc, next.files.journal.value) == Says(crc, files.journal.value)
    ensures |next.files.part.value| >= meta.totalLength.value
    ensures ReplayBytes(crc, next.files.journal.value).value.records
            == ReplayBytes(crc, files.journal.value).value.records
  {
    hide ReplayBytes, Effective, Repair, Inside, Covered, Count;
    ReconcileExact(crc, id, meta, files);
    RepairIdempotent(crc, files.journal.value);
  }

  /**
   Reconciling again gives the same verdict exactly when the journal records no shortening and
   the part file still held every surviving block the first time.
   */
  lemma ReconcileTwice(crc: Checksum, id: TransferId, meta: Metadata, files: Artifacts)
    requires Reconcilable(crc, id, meta, files)
    ensures var s := Says(crc, files.journal.value);
            && Reconcile(crc, id, Some(meta), files).Ok?
            && var first := Reconcile(crc, id, Some(meta), files).value;
               && (first.files.journal.Some? && |first.files.journal.value| <= U64_MAX)
               && var second := Reconcile(crc, id, Some(first.metadata), first.files);
                  (second.Ok? && SameVerdict(second.value.report, first.report)) <==>
                  && s.effectiveLength == meta.totalLength.value
                  && forall i :: 0 <= i < |s.blocks| ==> End(s.blocks[i]) <= |files.part.value|
  {
    hide ReplayBytes, Effective, Repair, Inside, Covered, Count, Reconcile, ReconcileJournal;
    ReconcileExact(crc, id, meta, files);
    RepairIdempotent(crc, files.journal.value);
    var s := Says(crc, files.journal.value);
    var first := Reconcile(crc, id, Some(meta), files).value;
    if s.effectiveLength == meta.totalLength.value {
      SecondLook(crc, id, meta, files, first);
      ReconcileExact(crc, id, first.metadata, first.files);
      SameMaps(crc, id, meta, files, first, Reconcile(crc, id, Some(first.metadata), first.files).value);
    } else {
      ShortenedRefused(crc, id, meta, files, first);
    }
  }

  lemma SameMaps(crc: Checksum, id: TransferId, meta: Metadata, files: Artifacts, first: Recovered, second: Recovered)
    requires Reconcilable(crc, id, meta, files) && Reconcilable(crc, id, first.metadata, first.files)
    requires Says(crc, first.files.journal.value) == Says(crc, files.journal.value)
    requires |first.files.part.value| >= meta.totalLength.value == Says(crc, files.journal.value).effectiveLength
    requires |first.report.owners| == |second.report.owners| == meta.totalLength.value
    requires var kept := Inside(Says(crc, files.journal.value).blocks, |files.part.value|);
             forall b :: 0 <= b < meta.totalLength.value ==>
               first.report.owners[b] == if Covered(kept, b) then Complete else Pending
    requires var kept := Inside(Says(crc, files.journal.value).blocks, |first.files.part.value|);
             forall b :: 0 <= b < meta.totalLength.value ==>
               second.report.owners[b] == if Covered(kept, b) then Complete else Pending
    ensures first.report.owners == second.report.owners <==>
            forall i :: 0 <= i < |Says(crc, files.journal.value).blocks| ==>
              End(Says(crc, files.journal.value).blocks[i]) <= |files.part.value|
  {
    hide ReplayBytes, Effective, Inside, Covered;
    var s := Says(crc, files.journal.value);
    var o := ReplayBytes(crc, files.journal.value).value;
    EffectiveBlocks(o.header, RecordsOf(o.records));
    InsideAll(s.blocks, |first.files.part.value|);
    if forall i :: 0 <= i < |s.blocks| ==> End(s.blocks[i]) <= |files.part.value| {
      InsideAll(s.blocks, |files.part.value|);
    } else {
      var i :| 0 <= i < |s.blocks| && End(s.blocks[i]) > |files.part.value|;
      DroppedByte(s.blocks, |files.part.value|, i);
      var b := s.blocks[i].offset;
      assert first.report.owners[b] != second.report.owners[b];
    }
  }

  lemma ShortenedRefused(crc: Checksum, id: TransferId, meta: Metadata, files: Artifacts, first: Recovered)
    requires Reconcilable(crc, id, meta, files)
    requires Reconcile(crc, id, Some(meta), files) == Ok(first)
    requires Says(crc, files.journal.value).effectiveLength != meta.totalLength.value
    ensures first.files.journal.Some? && |first.files.journal.value| <= U64_MAX
    ensures var second := Reconcile(crc, id, Some(first.metadata), first.files);
            && second.Ok? && second.value.report.failure == Some(JournalMismatched)
            && second.value.report.state == DownloadState.Failed != first.report.state
  {
    hide ReplayBytes, FoldTo, SortByOffset, Repair, Inside, Covered, Count, MergeAdjacent, Rebuild, TotalBytes;
    ReconcileExact(crc, id, meta, files);
    RepairIdempotent(crc, files.journal.value);
    var o := ReplayBytes(crc, files.journal.value).value;
    FoldExplainsLength(o.header, RecordsOf(o.records), |o.records|);
  }

  // ----- the rebuild as loops -----

  method MergeBlocks(blocks: seq<CompletedBlock>) returns (merged: seq<Range>)
    ensures merged == MergeAdjacent(blocks)
  {
    merged := [];
    for i := 0 to |blocks|
      invariant merged == MergeAdjacent(blocks[..i])
    {
      assert blocks[..i + 1][..i] == blocks[..i];
      var b, n := blocks[i], |merged| - 1;
      if merged != [] && merged[n].hi == b.offset {
        merged := merged[..n] + [Range(merged[n].lo, End(b))];
      } else {
        merged := merged + [Range(b.offset, End(b))];
      }
    }
    assert blocks[..|blocks|] == blocks;
  }

  /** Grants and completes every range on a fresh map, adding up the bytes. */
  method RebuildMap(length: U64, ranges: seq<Range>) returns (r: Result<IntervalMap, IntervalMapError>, covered: nat)
    ensures r.Ok? <==> Rebuild(length, ranges).Ok?
    ensures r.Ok? ==> fresh(r.value) && r.value.Valid() && r.value.Owners() == Rebuild(length, ranges).value
    ensures r.Ok? ==> covered == TotalBytes(ranges)
    ensures r.Err? ==> Rebuild(length, ranges) == Err(r.error)
  {
    hide Canonical, Expand, Grant, CompleteRange;
    covered := 0;
    var intervals := new IntervalMap(length);
    assert intervals.Owners() == seq(length, _ => Pending);
    for i := 0 to |ranges|
      invariant fresh(intervals) && intervals.Valid() && Rebuild(length, ranges[..i]) == Ok(intervals.Owners())
      invariant covered == TotalBytes(ranges[..i])
    {
      assert ranges[..i + 1][..i] == ranges[..i];
      var range := ranges[i];
      if range.lo > U64_MAX || range.hi > U64_MAX {
        RebuildStops(length, ranges, i + 1);
        return Err(InvalidRange(0, 0, length)), covered;
      }
      var granted := intervals.Grant(range.lo, range.hi, RECOVERY_WORKER);
      if granted.Err? {
        RebuildStops(length, ranges, i + 1);
        return Err(granted.error), covered;
      }
      var completed := intervals.Complete(range.lo, range.hi, RECOVERY_WORKER);
      if completed.Err? {
        RebuildStops(length, ranges, i + 1);
        return Err(completed.error), covered;
      }
      covered := covered + if range.lo <= range.hi then range.hi - range.lo else 0;
    }
    assert ranges[..|ranges|] == ranges;
    r := Ok(intervals);
  }

  lemma {:induction false} RebuildStops(length: U64, ranges: seq<Range>, i: nat)
    requires i <= |ranges| && Rebuild(length, ranges[..i]).Err?
    ensures Rebuild(length, ranges) == Rebuild(length, ranges[..i])
    decreases |ranges|
  {
    if i < |ranges| {
      var n := |ranges| - 1;
      assert ranges[..n][..i] == ranges[..i];
      RebuildStops(length, ranges[..n], i);
    } else {
      assert ranges[..i] == ranges;
    }
  }

  /** The whole reconciliation, each step on its own files, record and map. */
  method ReconcileDownload(crc: Checksum, id: TransferId, record: Option<Metadata>, found: Artifacts)
    returns (r: Result<Recovered, RecoveryError>)
    requires found.journal.Some? ==> |found.journal.value| <= U64_MAX
    ensures r == Reconcile(crc, id, record, found)
    ensures record.Some? && Reconcilable(crc, id, record.value, found) ==>
              r.Ok? && ResumedRow(crc, record.value, found.journal.value, r.value)
  {
    if record.Some? && Reconcilable(crc, id, record.value, found) {
      ReconcileExact(crc, id, record.value, found);
    }
    hide ReplayBytes, Effective, Rebuild, MergeAdjacent, Inside, TotalBytes, Repair, Reextend, ExtentOf;
    if record.None? {
      return Err(UnknownDownload);
    }
    var meta, files := record.value, found;
    if meta.state.Completed? || meta.state.Failed? {
      return Err(AlreadyTerminal(meta.state));
    }
    if files.part.None? {
      return Ok(Fail(meta, files, PartFileMissing));
    }
    if meta.totalLength.None? {
      return Ok(Fail(meta, files, LengthUnknown));
    }
    var total, part := meta.totalLength.value, files.part.value;
    if total > I64_MAX {
      return Err(UnsupportedLength(total));
    }
    files := files.(part := Some(Reextend(part, total)));
    var extent := ExtentOf(part, total);
    if files.journal.None? {
      return Ok(Persist(meta, files, Reconciliation(Paused, None, seq(total, _ => Pending), 0, 0, None, extent, false),
                        total));
    }
    var replayed := ReplayBytes(crc, files.journal.value);
    if replayed.Err? {
      return Ok(Fail(meta, files, JournalUnreadable));
    }
    files := files.(journal := Some(Repair(crc, files.journal.value)));
    var o := replayed.value;
    if o.header.transferId != id || o.header.totalLength != total {
      return Ok(Fail(meta, files, JournalMismatched));
    }
    var state := ComputeEffective(o.header, RecordsOf(o.records));
    if state.Err? {
      return Ok(Fail(meta, files, JournalInvalid));
    }
    var s := state.value;
    var merged := MergeBlocks(Inside(s.blocks, |part|));
    var intervals, covered := RebuildMap(s.effectiveLength, merged);
    if intervals.Err? {
      return Err(RebuildRejected(intervals.error));
    }
    var report := Reconciliation(Paused, None, intervals.value.Owners(), covered, |o.records|, s.sealed, extent,
                                 o.stop != CleanEof);
    r := Ok(Persist(meta, files, report, s.effectiveLength));
  }
}
