/**
 Two downloads for which reconciling a second time does not repeat the first verdict.

 They show that both conditions of `Recovery.ReconcileTwice` are needed: a part file that lost
 bytes is re-extended by the first run, and a recorded truncation is refused by the second.
 */
module RecoveryExamples {
  import opened Base
  import opened JournalFormat
  import opened Replay
  import opened JournalState
  import opened Recovery

  function Zeros(): Digest { seq(32, _ => 0) }

  function SomeId(): TransferId { seq(16, _ => 0) }

  function TwoBytes(): FileHeader { FileHeader(SomeId(), 2, 0, Zeros()) }

  function Running(): Metadata { Metadata(Transferring, Some(2), true, 0, None) }

  ghost function FilesOf(crc: Checksum, part: seq<Byte>, r: JournalRecord): Artifacts
    requires Encodable(r)
  {
    Artifacts(Some(part), Some(Journal(crc, TwoBytes(), [r])))
  }

  lemma OneRecordReplays(crc: Checksum, r: JournalRecord)
    requires Encodable(r)
    ensures |Journal(crc, TwoBytes(), [r])| <= U64_MAX
    ensures var o := ReplayBytes(crc, Journal(crc, TwoBytes(), [r]));
            o.Ok? && o.value.header == TwoBytes() && RecordsOf(o.value.records) == [r]
  {
    hide ReplayBytes, Frame, EncodeHeader;
    assert [r][1..] == [];
    assert EncodeAll(crc, [r], 0) == Frame(crc, 0, r) + [];
    ReplayJournal(crc, TwoBytes(), [r]);
    assert RecordsOf(Numbered([r], 0)) == [r];
  }

  lemma OneBlockFolds(b: CompletedBlock)
    requires 0 < b.len && End(b) <= 2
    ensures Effective(TwoBytes(), [BlockComplete(b.offset, b.len, b.blake3)])
            == Ok(EffectiveState(2, None, [], [b], None))
  {
    var recs := [BlockComplete(b.offset, b.len, b.blake3)];
    assert FoldTo(TwoBytes(), recs, 0) == Ok(Initial(TwoBytes()));
    assert Initial(TwoBytes()).blocks + [b] == [b];
    assert FoldTo(TwoBytes(), recs, 1) == Apply(Initial(TwoBytes()), recs[0], true);
    assert [b][..0] == [];
    assert SortByOffset([b]) == [b];
  }

  lemma OneTruncateFolds()
    ensures Effective(TwoBytes(), [Truncate(1)]) == Ok(EffectiveState(1, Some(1), [], [], None))
  {
    var recs := [Truncate(1)];
    assert FoldTo(TwoBytes(), recs, 0) == Ok(Initial(TwoBytes()));
    assert FoldTo(TwoBytes(), recs, 1) == Ok(EffectiveState(1, Some(1), [], [], None));
  }

  ghost predicate VerdictRepeats(crc: Checksum, files: Artifacts)
    requires Reconcilable(crc, SomeId(), Running(), files)
  {
    ReconcileTwice(crc, SomeId(), Running(), files);
    var first := Reconcile(crc, SomeId(), Some(Running()), files).value;
    var second := Reconcile(crc, SomeId(), Some(first.metadata), first.files);
    second.Ok? && SameVerdict(second.value.report, first.report)
  }

  /** One byte of a two-byte block is gone from the part file: the second run counts it again. */
  lemma ShortPartFile(crc: Checksum)
    ensures var r := BlockComplete(0, 2, Zeros());
            && Encodable(r)
            && var files := FilesOf(crc, [7], r);
               Reconcilable(crc, SomeId(), Running(), files) && !VerdictRepeats(crc, files)
  {
    hide ReplayBytes, Effective, Reconcile, Journal;
    var b := CompletedBlock(0, 2, Zeros());
    var files := FilesOf(crc, [7], BlockComplete(0, 2, Zeros()));
    OneRecordReplays(crc, BlockComplete(0, 2, Zeros()));
    OneBlockFolds(b);
    ReconcileTwice(crc, SomeId(), Running(), files);
    assert Says(crc, files.journal.value).blocks == [b] && End([b][0]) > 1;
  }

  /** A truncation to one byte is accepted once and refused as a mismatch the second time. */
  lemma RecordedTruncation(crc: Checksum)
    ensures Encodable(Truncate(1))
    ensures var files := FilesOf(crc, [7, 7], Truncate(1));
            Reconcilable(crc, SomeId(), Running(), files) && !VerdictRepeats(crc, files)
  {
    hide ReplayBytes, Effective, Reconcile, Journal;
    var files := FilesOf(crc, [7, 7], Truncate(1));
    OneRecordReplays(crc, Truncate(1));
    OneTruncateFolds();
    ReconcileTwice(crc, SomeId(), Running(), files);
  }
}
