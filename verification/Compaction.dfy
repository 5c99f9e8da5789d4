/**
 Journal compaction: the same meaning in fewer records, swapped in atomically.

 `Compacts` relates a journal to its compacted form; it is what `CompactJournal` computes. The
 compacted journal folds to the same length, truncation, identities, seal and covered bytes,
 there is only one, compacting it again changes nothing, and recovery cannot tell the two apart.
 */
module Compaction {
  import opened Base
  import opened Ownership
  import opened JournalFormat
  import opened Replay
  import opened JournalState
  import opened Recovery
  import opened Packing

  function TotalLen(blocks: seq<CompletedBlock>): nat
  {
    if blocks == [] then 0 else TotalLen(blocks[..|blocks| - 1]) + blocks[|blocks| - 1].len
  }

  function IdentityRecords(ids: seq<seq<Byte>>): (r: seq<JournalRecord>)
    ensures |r| == |ids| && forall i :: 0 <= i < |ids| ==> r[i] == IdentityUpdate(ids[i])
  {
    seq(|ids|, i requires 0 <= i < |ids| => IdentityUpdate(ids[i]))
  }

  function BlockRecord(b: CompletedBlock): JournalRecord { BlockComplete(b.offset, b.len, b.blake3) }

  function BlockRecords(blocks: seq<CompletedBlock>): (r: seq<JournalRecord>)
    ensures |r| == |blocks| && forall i :: 0 <= i < |blocks| ==> r[i] == BlockRecord(blocks[i])
  {
    seq(|blocks|, i requires 0 <= i < |blocks| => BlockRecord(blocks[i]))
  }

  function TruncateRecords(truncate: Option<U64>): seq<JournalRecord>
  {
    if truncate.Some? then [Truncate(truncate.value)] else []
  }

  function SealRecords(sealed: Option<Digest>): seq<JournalRecord>
  {
    if sealed.Some? then [Sealed(sealed.value)] else []
  }

  /** The records of a compacted journal, in the order they are written. */
  function CompactRecords(s: EffectiveState, merged: seq<CompletedBlock>, covered: U64, clock: U64): seq<JournalRecord>
  {
    IdentityRecords(s.identities) + TruncateRecords(s.truncate) + [Checkpoint(covered, clock)]
    + BlockRecords(merged) + SealRecords(s.sealed)
  }

  // ----- the compacted records fold to the same state -----

  lemma {:induction false} FoldIdentities(h: FileHeader, recs: seq<JournalRecord>, ids: seq<seq<Byte>>, n: nat)
    requires n <= |ids| <= |recs| && forall i :: 0 <= i < |ids| ==> recs[i] == IdentityUpdate(ids[i])
    ensures FoldTo(h, recs, n) == Ok(Initial(h).(identities := ids[..n]))
  {
    if n > 0 {
      FoldIdentities(h, recs, ids, n - 1);
      assert ids[..n - 1] + [ids[n - 1]] == ids[..n];
    }
  }

  lemma {:induction false} FoldBlocks(h: FileHeader, recs: seq<JournalRecord>, base: nat, s: EffectiveState,
                                      blocks: seq<CompletedBlock>, k: nat)
    requires base + |blocks| <= |recs| && FoldTo(h, recs, base) == Ok(s) && s.blocks == [] && k <= |blocks|
    requires forall i :: 0 <= i < |blocks| ==> recs[base + i] == BlockRecord(blocks[i])
    requires forall i :: 0 <= i < |blocks| ==> 0 < blocks[i].len && End(blocks[i]) <= s.effectiveLength
    ensures FoldTo(h, recs, base + k) == Ok(s.(blocks := blocks[..k]))
  {
    if k > 0 {
      FoldBlocks(h, recs, base, s, blocks, k - 1);
      var i := k - 1;
      assert recs[base + i] == BlockRecord(blocks[i]);
      assert blocks[..i] + [blocks[i]] == blocks[..k];
    }
  }

  lemma {:induction false} SortedStays(blocks: seq<CompletedBlock>)
    requires Ordered(blocks) && NonEmpty(blocks)
    ensures SortByOffset(blocks) == blocks && Touching(blocks)
  {
    if blocks != [] {
      SortedStays(blocks[..|blocks| - 1]);
      assert blocks == blocks[..|blocks| - 1] + [blocks[|blocks| - 1]];
    }
  }

  /** Identities, truncation and checkpoint: the state before the blocks. */
  lemma FoldFront(h: FileHeader, s: EffectiveState, recs: seq<JournalRecord>)
    requires LengthExplained(h, s)
    requires var n, t := |s.identities|, TruncateRecords(s.truncate);
             && n + |t| + 1 <= |recs| && (forall i :: 0 <= i < n ==> recs[i] == IdentityUpdate(s.identities[i]))
             && (t != [] ==> recs[n] == t[0]) && recs[n + |t|].Checkpoint?
    ensures FoldTo(h, recs, |s.identities| + |TruncateRecords(s.truncate)| + 1) == Ok(s.(blocks := [], sealed := None))
  {
    var n := |s.identities|;
    FoldIdentities(h, recs, s.identities, n);
    assert s.identities[..n] == s.identities;
    if s.truncate.Some? {
      assert FoldTo(h, recs, n + 1) == Apply(FoldTo(h, recs, n).value, recs[n], n + 1 == |recs|);
      assert Inside([], s.effectiveLength) == [];
    }
  }

  lemma CompactFold(h: FileHeader, s: EffectiveState, merged: seq<CompletedBlock>, covered: U64, clock: U64)
    requires LengthExplained(h, s)
    requires forall i :: 0 <= i < |merged| ==> 0 < merged[i].len && End(merged[i]) <= s.effectiveLength
    ensures var recs := CompactRecords(s, merged, covered, clock);
            FoldTo(h, recs, |recs|) == Ok(s.(blocks := merged))
  {
    hide FoldTo, IdentityRecords, BlockRecords;
    var recs := CompactRecords(s, merged, covered, clock);
    var base := |s.identities| + |TruncateRecords(s.truncate)| + 1;
    FoldFront(h, s, recs);
    FoldBlocks(h, recs, base, s.(blocks := [], sealed := None), merged, |merged|);
    assert merged[..|merged|] == merged;
    FoldSeal(h, s, recs, base + |merged|, merged);
  }

  lemma FoldSeal(h: FileHeader, s: EffectiveState, recs: seq<JournalRecord>, n: nat, merged: seq<CompletedBlock>)
    requires n <= |recs| == n + |SealRecords(s.sealed)| && recs[n..] == SealRecords(s.sealed)
    requires FoldTo(h, recs, n) == Ok(s.(blocks := merged, sealed := None))
    ensures FoldTo(h, recs, |recs|) == Ok(s.(blocks := merged))
  {
    if s.sealed.Some? {
      assert recs[n] == recs[n..][0];
    }
  }

  /** The merged blocks lie where the original ones did. */
  lemma MergedInside(hash: Hash, part: seq<Byte>, blocks: seq<CompletedBlock>, merged: seq<CompletedBlock>, length: nat)
    requires Packed(hash, part, merged) && SameBytes(merged, blocks)
    requires forall i :: 0 <= i < |blocks| ==> End(blocks[i]) <= length
    ensures forall i :: 0 <= i < |merged| ==> 0 < merged[i].len && End(merged[i]) <= length
  {
    forall i | 0 <= i < |merged| ensures 0 < merged[i].len && End(merged[i]) <= length {
      assert Piece(hash, part, merged[i]);
      var x: nat := End(merged[i]) - 1;
      assert merged[i].offset <= x < End(merged[i]);
      assert Covered(merged, x);
      assert Covered(blocks, x);
    }
  }

  /** Folding the compacted records gives the original state with the blocks merged. */
  lemma CompactMeaning(hash: Hash, part: seq<Byte>, h: FileHeader, recs: seq<JournalRecord>,
                       merged: seq<CompletedBlock>, covered: U64, clock: U64)
    requires Effective(h, recs).Ok? && Packed(hash, part, merged) && SameBytes(merged, Effective(h, recs).value.blocks)
    ensures var s := Effective(h, recs).value;
            Effective(h, CompactRecords(s, merged, covered, clock)) == Ok(s.(blocks := merged))
  {
    hide CompactRecords, FoldTo, SortByOffset, Covered, Packed, BlocksOf, LengthAt, Inside;
    var s := Effective(h, recs).value;
    FoldExplainsLength(h, recs, |recs|);
    EffectiveBlocks(h, recs);
    MergedInside(hash, part, s.blocks, merged, s.effectiveLength);
    CompactFold(h, s, merged, covered, clock);
    PackedChecks(hash, part, merged);
    SortedStays(merged);
  }

  // ----- encoding -----

  lemma FixedSizeEncodable(r: JournalRecord)
    requires !r.IdentityUpdate?
    ensures Encodable(r)
  {
  }

  ghost predicate SmallIdentities(ids: seq<seq<Byte>>)
  {
    forall i :: 0 <= i < |ids| ==> Encodable(IdentityUpdate(ids[i]))
  }

  lemma {:induction false} IdentitiesEncodable(recs: seq<JournalRecord>)
    requires AllEncodable(recs)
    ensures SmallIdentities(IdentitiesOf(recs)) && |IdentitiesOf(recs)| <= |recs|
  {
    hide Encodable;
    if recs != [] {
      IdentitiesEncodable(recs[..|recs| - 1]);
    }
  }

  lemma CompactEncodable(s: EffectiveState, merged: seq<CompletedBlock>, covered: U64, clock: U64)
    ensures AllEncodable(CompactRecords(s, merged, covered, clock)) <==> SmallIdentities(s.identities)
  {
    hide Encodable, IdentityRecords, BlockRecords;
    var recs := CompactRecords(s, merged, covered, clock);
    forall i | 0 <= i < |recs| ensures i < |s.identities| || Encodable(recs[i]) {
      if i >= |s.identities| {
        NotIdentity(s, merged, covered, clock, i);
        FixedSizeEncodable(recs[i]);
      }
    }
    forall i | 0 <= i < |s.identities| ensures recs[i] == IdentityUpdate(s.identities[i]) {
    }
  }

  lemma NotIdentity(s: EffectiveState, merged: seq<CompletedBlock>, covered: U64, clock: U64, i: nat)
    requires |s.identities| <= i < |CompactRecords(s, merged, covered, clock)|
    ensures !CompactRecords(s, merged, covered, clock)[i].IdentityUpdate?
  {
  }

  /** Disjoint pieces cannot cover more bytes than the part file has. */
  lemma {:induction false} TotalLenFits(hash: Hash, part: seq<Byte>, merged: seq<CompletedBlock>)
    requires Packed(hash, part, merged)
    ensures |merged| <= TotalLen(merged) <= |part|
    ensures merged != [] ==> TotalLen(merged) <= End(merged[|merged| - 1])
  {
    if merged != [] {
      var init, l := merged[..|merged| - 1], merged[|merged| - 1];
      InitPacked(hash, part, merged);
      TotalLenFits(hash, part, init);
      assert Piece(hash, part, l);
    }
  }

  lemma InitPacked(hash: Hash, part: seq<Byte>, merged: seq<CompletedBlock>)
    requires Packed(hash, part, merged) && merged != []
    ensures Packed(hash, part, merged[..|merged| - 1])
  {
    var t := merged[..|merged| - 1];
    forall j, k | 0 <= j < k < |t| && k == j + 1 && End(t[j]) == t[k].offset ensures t[j].len == U32_MAX {
      assert t[j] == merged[j] && t[k] == merged[k];
    }
  }

  /** Sums the covered bytes, builds the records, and encodes them after the old header. */
  method EncodeReplacement(crc: Checksum, h: FileHeader, s: EffectiveState, merged: seq<CompletedBlock>, clock: U64)
    returns (r: Result<seq<Byte>, CompactionError>)
    ensures r.Ok? <==> TotalLen(merged) <= U64_MAX && SmallIdentities(s.identities)
                       && |CompactRecords(s, merged, TotalLen(merged), clock)| <= U64_MAX
    ensures r.Ok? ==> AllEncodable(CompactRecords(s, merged, TotalLen(merged), clock))
                      && r.value == Journal(crc, h, CompactRecords(s, merged, TotalLen(merged), clock))
  {
    hide CompactRecords, Encodable, Journal, EncodeFrame, PayloadOf;
    var covered := CoveredBytes(merged);
    if covered.None? {
      return Err(InvalidState);
    }
    var recs := CompactRecords(s, merged, covered.value, clock);
    CompactEncodable(s, merged, covered.value, clock);
    r := EncodeRecords(crc, h, recs);
  }

  /** `try_fold` with `checked_add`. */
  method CoveredBytes(merged: seq<CompletedBlock>) returns (r: Option<U64>)
    ensures r == if TotalLen(merged) <= U64_MAX then Some(TotalLen(merged)) else None
  {
    var total: U64 := 0;
    for i := 0 to |merged|
      invariant total == TotalLen(merged[..i])
    {
      assert merged[..i + 1][..i] == merged[..i];
      if total + merged[i].len > U64_MAX {
        TotalLenGrows(merged, i + 1);
        return None;
      }
      total := total + merged[i].len;
    }
    assert merged[..|merged|] == merged;
    r := Some(total);
  }

  lemma {:induction false} TotalLenGrows(merged: seq<CompletedBlock>, i: nat)
    requires i <= |merged|
    ensures TotalLen(merged[..i]) <= TotalLen(merged)
  {
    if i < |merged| {
      TotalLenGrows(merged[..|merged| - 1], i);
      assert merged[..|merged| - 1][..i] == merged[..i];
    } else {
      assert merged[..i] == merged;
    }
  }

  method EncodeRecords(crc: Checksum, h: FileHeader, recs: seq<JournalRecord>)
    returns (r: Result<seq<Byte>, CompactionError>)
    ensures r.Ok? <==> AllEncodable(recs) && |recs| <= U64_MAX
    ensures r.Ok? ==> r.value == Journal(crc, h, recs)
  {
    hide Encodable, Journal, Frame;
    if |recs| > U64_MAX {
      return Err(InvalidState);
    }
    var encoded := EncodeHeader(crc, h);
    EmptyJournal(crc, h);
    assert recs[..0] == [];
    for i := 0 to |recs|
      invariant AllEncodable(recs[..i]) && encoded == Journal(crc, h, recs[..i])
    {
      FrameOrTooLarge(crc, i, recs[i]);
      var frame := EncodeFrame(crc, FramedRecord(i, recs[i]));
      if frame.Err? {
        return Err(Oversized);
      }
      JournalSnoc(crc, h, recs[..i], recs[i]);
      assert recs[..i] + [recs[i]] == recs[..i + 1];
      encoded := encoded + frame.value;
    }
    assert recs[..|recs|] == recs;
    r := Ok(encoded);
  }

  lemma EmptyJournal(crc: Checksum, h: FileHeader)
    ensures Journal(crc, h, []) == EncodeHeader(crc, h)
  {
    assert EncodeAll(crc, [], 0) == [];
  }

  lemma FrameOrTooLarge(crc: Checksum, sequence: U64, r: JournalRecord)
    ensures EncodeFrame(crc, FramedRecord(sequence, r)).Ok? <==> Encodable(r)
    ensures Encodable(r) ==> EncodeFrame(crc, FramedRecord(sequence, r)) == Ok(Frame(crc, sequence, r))
  {
  }

  // ----- compaction of a whole journal -----

  ghost predicate EncodesMerged(crc: Checksum, h: FileHeader, s: EffectiveState, merged: seq<CompletedBlock>,
                                clock: U64, out: seq<Byte>)
  {
    && TotalLen(merged) <= U64_MAX
    && var recs := CompactRecords(s, merged, TotalLen(merged), clock);
       AllEncodable(recs) && |recs| <= U64_MAX && out == Journal(crc, h, recs)
  }

  /** `out` is the compacted form of `journal` over the given part bytes. */
  ghost predicate Compacts(crc: Checksum, hash: Hash, journal: seq<Byte>, part: seq<Byte>, clock: U64, out: seq<Byte>)
  {
    && Replays(crc, journal)
    && exists merged ::
         && Packed(hash, part, merged) && SameBytes(merged, Says(crc, journal).blocks)
         && EncodesMerged(crc, HeaderOf(crc, journal), Says(crc, journal), merged, clock, out)
  }

  /** Every block of the journal is intact in the part file. */
  ghost predicate Intactness(hash: Hash, part: seq<Byte>, blocks: seq<CompletedBlock>)
  {
    forall i :: 0 <= i < |blocks| ==> BlockCheck(hash, part, blocks[i]).Ok?
  }

  /** Files are at most `i64::MAX` bytes, so a compacted journal never runs out of sequence numbers. */
  method CompactJournal(crc: Checksum, hash: Hash, journal: seq<Byte>, part: seq<Byte>, clock: U64)
    returns (r: Result<seq<Byte>, CompactionError>)
    requires |journal| <= I64_MAX && |part| <= I64_MAX
    ensures r.Ok? <==> Replays(crc, journal) && Intactness(hash, part, Says(crc, journal).blocks)
    ensures r.Ok? ==> Compacts(crc, hash, journal, part, clock, r.value)
    ensures r == Err(Unreadable) <==> ReplayBytes(crc, journal).Err?
    ensures r == Err(InvalidState) <==> ReplayBytes(crc, journal).Ok? && !Replays(crc, journal)
    ensures r.Err? && Replays(crc, journal) ==> exists i :: FirstBad(hash, part, Says(crc, journal).blocks, i, r.error)
  {
    hide Packed, SameBytes, CompactRecords, Journal, Effective, ReplayBytes, AllEncodable, TotalLen;
    var replayed := ReplayBytes(crc, journal);
    if replayed.Err? {
      return Err(Unreadable);
    }
    var o := replayed.value;
    var state := Effective(o.header, RecordsOf(o.records));
    if state.Err? {
      return Err(InvalidState);
    }
    EffectiveBlocks(o.header, RecordsOf(o.records));
    var merged := VerifyAndMerge(hash, part, state.value.blocks);
    if merged.Err? {
      return Err(merged.error);
    }
    CompactFits(crc, hash, journal, part, merged.value, clock);
    r := EncodeReplacement(crc, o.header, state.value, merged.value, clock);
    assert EncodesMerged(crc, o.header, state.value, merged.value, clock, r.value);
  }

  lemma CompactFits(crc: Checksum, hash: Hash, journal: seq<Byte>, part: seq<Byte>, merged: seq<CompletedBlock>,
                    clock: U64)
    requires |journal| <= I64_MAX && |part| <= I64_MAX && Replays(crc, journal) && Packed(hash, part, merged)
    ensures TotalLen(merged) <= U64_MAX && SmallIdentities(Says(crc, journal).identities)
    ensures |CompactRecords(Says(crc, journal), merged, TotalLen(merged), clock)| <= U64_MAX
  {
    hide Packed, TotalLen, Replays, Says, Effective;
    TotalLenFits(hash, part, merged);
    FewIdentities(crc, journal);
    CompactSize(Says(crc, journal), merged, TotalLen(merged), clock);
  }

  lemma CompactSize(s: EffectiveState, merged: seq<CompletedBlock>, covered: U64, clock: U64)
    ensures |CompactRecords(s, merged, covered, clock)| <= |s.identities| + |merged| + 3
  {
  }

  lemma FewIdentities(crc: Checksum, journal: seq<Byte>)
    requires Replays(crc, journal)
    ensures SmallIdentities(Says(crc, journal).identities) && HEADER_LEN + |Says(crc, journal).identities| <= |journal|
  {
    hide ReplayBytes, Effective, Encodable, IdentitiesOf, BlocksOf, LengthAt, Inside, LastTruncate, Numbered, Repair,
      Journal;
    var o := ReplayBytes(crc, journal).value;
    var recs := RecordsOf(o.records);
    ReplayCanonical(crc, journal);
    JournalLongEnough(crc, o.header, recs);
    assert |Journal(crc, o.header, recs)| == |journal[..o.validBytes]| == o.validBytes;
    assert HEADER_LEN + |recs| <= |journal|;
    EffectiveClosedForm(o.header, recs);
    IdentitiesEncodable(recs);
    assert Says(crc, journal).identities == IdentitiesOf(recs);
  }

  lemma JournalLongEnough(crc: Checksum, h: FileHeader, recs: seq<JournalRecord>)
    requires AllEncodable(recs) && |recs| <= U64_MAX
    ensures HEADER_LEN + |recs| <= |Journal(crc, h, recs)|
  {
    hide EncodeAll, Encodable;
    EncodeAllLength(crc, recs, 0);
  }

  // ----- a compacted journal is hardly longer -----

  function FrameSize(r: JournalRecord): nat { MIN_FRAME_LEN + |PayloadOf(r)| }

  function Size(recs: seq<JournalRecord>): nat
  {
    if recs == [] then 0 else Size(recs[..|recs| - 1]) + FrameSize(recs[|recs| - 1])
  }

  lemma {:induction false} JournalSize(crc: Checksum, h: FileHeader, recs: seq<JournalRecord>)
    requires AllEncodable(recs) && |recs| <= U64_MAX
    ensures |Journal(crc, h, recs)| == HEADER_LEN + Size(recs)
  {
    hide Encodable, PayloadOf, Journal;
    if recs == [] {
      EmptyJournal(crc, h);
    } else {
      var n := |recs| - 1;
      JournalSize(crc, h, recs[..n]);
      JournalSnoc(crc, h, recs[..n], recs[n]);
      assert recs[..n] + [recs[n]] == recs;
    }
  }

  lemma {:induction false} SizeConcat(a: seq<JournalRecord>, b: seq<JournalRecord>)
    ensures Size(a + b) == Size(a) + Size(b)
  {
    if b == [] {
      assert a + b == a;
    } else {
      SizeConcat(a, b[..|b| - 1]);
      assert (a + b)[..|a + b| - 1] == a + b[..|b| - 1];
    }
  }

  lemma {:induction false} SizeOfBlocks(blocks: seq<CompletedBlock>)
    ensures Size(BlockRecords(blocks)) == (MIN_FRAME_LEN + 44) * |blocks|
  {
    hide FrameSize, BlockRecords;
    if blocks != [] {
      var n := |blocks| - 1;
      SizeOfBlocks(blocks[..n]);
      assert BlockRecords(blocks)[..n] == BlockRecords(blocks[..n]);
      BlockSize(blocks[n]);
    }
  }

  lemma BlockSize(b: CompletedBlock)
    ensures FrameSize(BlockRecord(b)) == MIN_FRAME_LEN + 44
  {
  }

  lemma SizeOfOne(r: JournalRecord)
    ensures Size([r]) == FrameSize(r)
  {
    assert [r][..0] == [];
  }

  /** What the records that matter to a compaction take up. */
  ghost function Needed(s: EffectiveState, blocks: nat): nat
  {
    Size(IdentityRecords(s.identities)) + Size(TruncateRecords(s.truncate)) + (MIN_FRAME_LEN + 44) * blocks
    + Size(SealRecords(s.sealed))
  }

  lemma CompactTakes(s: EffectiveState, merged: seq<CompletedBlock>, covered: U64, clock: U64)
    ensures Size(CompactRecords(s, merged, covered, clock)) == Needed(s, |merged|) + MIN_FRAME_LEN + 16
  {
    hide Size, IdentityRecords, BlockRecords, TruncateRecords, SealRecords;
    var a, b := IdentityRecords(s.identities), TruncateRecords(s.truncate);
    var c, d, e := [Checkpoint(covered, clock)], BlockRecords(merged), SealRecords(s.sealed);
    SizeConcat(a + b + c + d, e);
    SizeConcat(a + b + c, d);
    SizeConcat(a + b, c);
    SizeConcat(a, b);
    SizeOfBlocks(merged);
    SizeOfOne(Checkpoint(covered, clock));
    CheckpointSize(covered, clock);
  }

  lemma CheckpointSize(covered: U64, clock: U64)
    ensures FrameSize(Checkpoint(covered, clock)) == MIN_FRAME_LEN + 16
  {
  }

  /** The original journal spends at least as much on them. */
  lemma {:induction false} RecordsTake(recs: seq<JournalRecord>)
    ensures Size(recs) >= Size(IdentityRecords(IdentitiesOf(recs))) + Size(TruncateRecords(LastTruncate(recs)))
                          + (MIN_FRAME_LEN + 44) * |BlocksOf(recs)|
    ensures Size(recs) >= Size(IdentityRecords(IdentitiesOf(recs))) + Size(TruncateRecords(LastTruncate(recs)))
                          + (MIN_FRAME_LEN + 44) * |BlocksOf(recs)| + Size(SealRecords(SealOf(recs)))
  {
    hide PayloadOf;
    if recs == [] {
      NothingTaken();
    } else {
      var init, r := recs[..|recs| - 1], recs[|recs| - 1];
      RecordsTake(init);
      RecordTakes(IdentitiesOf(init), r);
    }
  }

  lemma NothingTaken()
    ensures Size([]) == 0 && IdentityRecords([]) == []
  {
  }

  lemma RecordTakes(ids: seq<seq<Byte>>, r: JournalRecord)
    ensures r.IdentityUpdate? ==>
              Size(IdentityRecords(ids + [r.cbor])) == Size(IdentityRecords(ids)) + FrameSize(r)
    ensures r.Truncate? ==> Size(TruncateRecords(Some(r.newLength))) == FrameSize(r)
    ensures r.Sealed? ==> Size(SealRecords(Some(r.finalBlake3))) == FrameSize(r)
    ensures r.BlockComplete? ==> FrameSize(r) == MIN_FRAME_LEN + 44
    ensures Size(TruncateRecords(None)) == Size(SealRecords(None)) == 0
    ensures forall n :: Size(TruncateRecords(Some(n))) == MIN_FRAME_LEN + 8
  {
    forall n ensures Size(TruncateRecords(Some(n))) == MIN_FRAME_LEN + 8 {
      SizeOfOne(Truncate(n));
    }
    match r
    case IdentityUpdate(cbor) =>
      assert IdentityRecords(ids + [cbor])[..|ids|] == IdentityRecords(ids);
    case Truncate(_) => SizeOfOne(r);
    case Sealed(_) => SizeOfOne(r);
    case _ =>
  }

  lemma {:induction false} InsideFewer(blocks: seq<CompletedBlock>, length: nat)
    ensures |Inside(blocks, length)| <= |blocks|
  {
    if blocks != [] {
      InsideFewer(blocks[..|blocks| - 1], length);
    }
  }

  lemma SurvivorsFewer(h: FileHeader, recs: seq<JournalRecord>)
    requires Effective(h, recs).Ok?
    ensures |Effective(h, recs).value.blocks| <= |BlocksOf(recs)|
  {
    hide Effective, BlocksOf, Inside, LengthAt;
    EffectiveClosedForm(h, recs);
    var s := Effective(h, recs).value;
    InsideFewer(BlocksOf(recs), s.effectiveLength);
    assert |multiset(s.blocks)| == |s.blocks|;
    assert |multiset(Inside(BlocksOf(recs), s.effectiveLength))| == |Inside(BlocksOf(recs), s.effectiveLength)|;
  }

  /** Compaction adds at most the checkpoint it writes, so a compacted journal is still a file. */
  lemma CompactionSmall(crc: Checksum, hash: Hash, journal: seq<Byte>, part: seq<Byte>, clock: U64, out: seq<Byte>)
    requires Compacts(crc, hash, journal, part, clock, out)
    ensures |out| <= |journal| + MIN_FRAME_LEN + 16
  {
    hide Packed, SameBytes, CompactRecords, Journal, Effective, ReplayBytes, AllEncodable, TotalLen, Numbered, Size,
      IdentityRecords, IdentitiesOf, LastTruncate, BlocksOf, SealOf, LengthAt, Inside, Repair;
    var o := ReplayBytes(crc, journal).value;
    var h, s, recs := o.header, Says(crc, journal), RecordsOf(o.records);
    var merged :| Packed(hash, part, merged) && SameBytes(merged, s.blocks)
                  && EncodesMerged(crc, h, s, merged, clock, out);
    ReplayCanonical(crc, journal);
    JournalSize(crc, h, recs);
    JournalSize(crc, h, CompactRecords(s, merged, TotalLen(merged), clock));
    CompactTakes(s, merged, TotalLen(merged), clock);
    RecordsTake(recs);
    EffectiveClosedForm(h, recs);
    EffectiveBlocks(h, recs);
    MergedFewer(hash, part, merged, s.blocks);
    SurvivorsFewer(h, recs);
    assert |journal[..o.validBytes]| == o.validBytes;
  }

  /** A compacted journal replays cleanly and means what the original meant. */
  lemma CompactionKeepsMeaning(crc: Checksum, hash: Hash, journal: seq<Byte>, part: seq<Byte>, clock: U64,
                               out: seq<Byte>)
    requires Compacts(crc, hash, journal, part, clock, out) && |out| <= U64_MAX
    ensures Replays(crc, out) && HeaderOf(crc, out) == HeaderOf(crc, journal)
    ensures ReplayBytes(crc, out).value.stop == CleanEof
    ensures var before, after := Says(crc, journal), Says(crc, out);
            && after == before.(blocks := after.blocks)
            && SameBytes(after.blocks, before.blocks) && Packed(hash, part, after.blocks)
  {
    hide Packed, SameBytes, CompactRecords, Journal, Effective, ReplayBytes, AllEncodable, TotalLen, Numbered;
    var o := ReplayBytes(crc, journal).value;
    var h, s := o.header, Says(crc, journal);
    var merged :| Packed(hash, part, merged) && SameBytes(merged, s.blocks)
                  && EncodesMerged(crc, h, s, merged, clock, out);
    var recs := CompactRecords(s, merged, TotalLen(merged), clock);
    ReplayJournal(crc, h, recs);
    assert RecordsOf(Numbered(recs, 0)) == recs;
    CompactMeaning(hash, part, h, RecordsOf(o.records), merged, TotalLen(merged), clock);
  }

  // ----- the checkpoint -----

  /** Pieces in order cover as many bytes as their lengths add up to. */
  lemma {:induction false} PackedCount(hash: Hash, part: seq<Byte>, merged: seq<CompletedBlock>, m: Owners)
    requires Packed(hash, part, merged) && |m| == |part|
    requires forall x :: 0 <= x < |m| ==> (m[x] == Complete <==> Covered(merged, x))
    ensures TotalLen(merged) == Count(m, Complete)
  {
    hide Count, Packed;
    if merged == [] {
      CountZeroIff(m, Complete);
    } else {
      var init, l := merged[..|merged| - 1], merged[|merged| - 1];
      InitPacked(hash, part, merged);
      LastApart(hash, part, merged);
      var before := Paint(m, l.offset, End(l), Pending);
      forall x | 0 <= x < |m| ensures before[x] == Complete <==> Covered(init, x) {
        CoveredLast(merged, x);
      }
      PackedCount(hash, part, init, before);
      PaintMovesCount(m, l.offset, End(l), Complete, Pending, Complete);
    }
  }

  lemma LastApart(hash: Hash, part: seq<Byte>, merged: seq<CompletedBlock>)
    requires Packed(hash, part, merged) && merged != []
    ensures var l := merged[|merged| - 1];
            && l.offset <= End(l) <= |part|
            && forall x :: l.offset <= x < End(l) ==> Covered(merged, x) && !Covered(merged[..|merged| - 1], x)
  {
    assert Piece(hash, part, merged[|merged| - 1]);
  }

  /** Exactly one record is a checkpoint, and it says `covered` and `clock`. */
  ghost predicate OneCheckpoint(recs: seq<JournalRecord>, covered: nat, clock: U64)
  {
    exists i :: 0 <= i < |recs| && recs[i].Checkpoint? && recs[i].coveredBytes == covered && recs[i].wallClock == clock
                && forall j :: 0 <= j < |recs| && j != i ==> !recs[j].Checkpoint?
  }

  lemma RecordsCheckpoint(s: EffectiveState, merged: seq<CompletedBlock>, covered: U64, clock: U64)
    ensures OneCheckpoint(CompactRecords(s, merged, covered, clock), covered, clock)
  {
    var recs, i := CompactRecords(s, merged, covered, clock), |s.identities| + |TruncateRecords(s.truncate)|;
    assert recs[i] == Checkpoint(covered, clock);
  }

  /** The compacted journal has one checkpoint: it counts the bytes that are covered, and tells the time given. */
  lemma CompactionCheckpoint(crc: Checksum, hash: Hash, journal: seq<Byte>, part: seq<Byte>, clock: U64, out: seq<Byte>,
                             m: Owners)
    requires Compacts(crc, hash, journal, part, clock, out) && |out| <= U64_MAX && |m| == |part|
    requires forall x :: 0 <= x < |m| ==> (m[x] == Complete <==> Covered(Says(crc, journal).blocks, x))
    ensures ReplayBytes(crc, out).Ok?
    ensures OneCheckpoint(RecordsOf(ReplayBytes(crc, out).value.records), Count(m, Complete), clock)
  {
    hide Packed, Covered, CompactRecords, Journal, Effective, ReplayBytes, AllEncodable, TotalLen, Numbered, Count,
      OneCheckpoint;
    var o := ReplayBytes(crc, journal).value;
    var h, s := o.header, Says(crc, journal);
    var merged :| Packed(hash, part, merged) && SameBytes(merged, s.blocks)
                  && EncodesMerged(crc, h, s, merged, clock, out);
    var recs := CompactRecords(s, merged, TotalLen(merged), clock);
    ReplayJournal(crc, h, recs);
    assert RecordsOf(Numbered(recs, 0)) == recs;
    PackedCount(hash, part, merged, m);
    RecordsCheckpoint(s, merged, TotalLen(merged), clock);
  }

  /** Compaction has one result. */
  lemma CompactionUnique(crc: Checksum, hash: Hash, journal: seq<Byte>, part: seq<Byte>, clock: U64, a: seq<Byte>,
                         b: seq<Byte>)
    requires Compacts(crc, hash, journal, part, clock, a) && Compacts(crc, hash, journal, part, clock, b)
    ensures a == b
  {
    hide Packed, Covered, CompactRecords, Journal, Effective, ReplayBytes, AllEncodable, TotalLen;
    var h, s := HeaderOf(crc, journal), Says(crc, journal);
    var x :| Packed(hash, part, x) && SameBytes(x, s.blocks) && EncodesMerged(crc, h, s, x, clock, a);
    var y :| Packed(hash, part, y) && SameBytes(y, s.blocks) && EncodesMerged(crc, h, s, y, clock, b);
    PackedUnique(hash, part, x, y);
  }

  /** A compacted journal is its own compacted form, and its only one. */
  lemma RecompactionIdentical(crc: Checksum, hash: Hash, journal: seq<Byte>, part: seq<Byte>, clock: U64,
                              out: seq<Byte>)
    requires Compacts(crc, hash, journal, part, clock, out) && |out| <= U64_MAX
    ensures forall again :: Compacts(crc, hash, out, part, clock, again) <==> again == out
  {
    hide Packed, Covered, CompactRecords, Journal, Effective, ReplayBytes, AllEncodable, TotalLen;
    CompactionKeepsMeaning(crc, hash, journal, part, clock, out);
    var h, s, t := HeaderOf(crc, journal), Says(crc, journal), Says(crc, out);
    var x :| Packed(hash, part, x) && SameBytes(x, s.blocks) && EncodesMerged(crc, h, s, x, clock, out);
    BlocksUnused(s, t, x, TotalLen(x), clock);
    assert SameBytes(x, t.blocks) && EncodesMerged(crc, h, t, x, clock, out);
    forall again ensures Compacts(crc, hash, out, part, clock, again) ==> again == out {
      if Compacts(crc, hash, out, part, clock, again) {
        CompactionUnique(crc, hash, out, part, clock, again, out);
      }
    }
  }

  lemma BlocksUnused(s: EffectiveState, t: EffectiveState, merged: seq<CompletedBlock>, covered: U64, clock: U64)
    requires t == s.(blocks := t.blocks)
    ensures CompactRecords(s, merged, covered, clock) == CompactRecords(t, merged, covered, clock)
  {
  }

  // ----- recovery after compaction -----

  lemma SameCoverageInside(hash: Hash, part: seq<Byte>, blocks: seq<CompletedBlock>, merged: seq<CompletedBlock>)
    requires Packed(hash, part, merged) && SameBytes(merged, blocks) && NonEmpty(blocks)
    ensures Inside(merged, |part|) == merged && Inside(blocks, |part|) == blocks
  {
    hide Inside;
    PackedChecks(hash, part, merged);
    InsideAll(merged, |part|);
    forall i | 0 <= i < |blocks| ensures End(blocks[i]) <= |part| {
      var x: nat := End(blocks[i]) - 1;
      assert blocks[i].offset <= x < End(blocks[i]);
      assert Covered(merged, x);
    }
    InsideAll(blocks, |part|);
  }

  /** Recovery rebuilds the same map from a compacted journal as from the original. */
  lemma RecoveryAfterCompaction(crc: Checksum, hash: Hash, id: TransferId, meta: Metadata, files: Artifacts,
                                clock: U64, out: seq<Byte>)
    requires Reconcilable(crc, id, meta, files) && |out| <= U64_MAX
    requires Compacts(crc, hash, files.journal.value, files.part.value, clock, out)
    ensures var compacted := files.(journal := Some(out));
            && Reconcile(crc, id, Some(meta), files).Ok? && Reconcile(crc, id, Some(meta), compacted).Ok?
            && var a := Reconcile(crc, id, Some(meta), files).value;
               var b := Reconcile(crc, id, Some(meta), compacted).value;
               && a.report.owners == b.report.owners && a.report.coveredBytes == b.report.coveredBytes
               && a.report.state == b.report.state && a.report.sealed == b.report.sealed
               && a.metadata.totalLength == b.metadata.totalLength && a.files.part == b.files.part
  {
    hide Packed, Covered, Compacts, Effective, ReplayBytes, Reconcile, Inside, Count, Repair, NonEmpty;
    var journal, part := files.journal.value, files.part.value;
    var compacted := files.(journal := Some(out));
    CompactionKeepsMeaning(crc, hash, journal, part, clock, out);
    ReconcileExact(crc, id, meta, files);
    ReconcileExact(crc, id, meta, compacted);
    var o := ReplayBytes(crc, journal).value;
    EffectiveBlocks(o.header, RecordsOf(o.records));
    SameCoverageInside(hash, part, Says(crc, journal).blocks, Says(crc, out).blocks);
    var a := Reconcile(crc, id, Some(meta), files).value.report;
    var b := Reconcile(crc, id, Some(meta), compacted).value.report;
    forall x | 0 <= x < |a.owners| ensures a.owners[x] == b.owners[x] {
      assert Covered(Says(crc, journal).blocks, x) <==> Covered(Says(crc, out).blocks, x);
    }
  }

  // ----- atomic replacement -----

  /**
   The directory during a compaction: the journal and whether its bytes are synced, the file
   under the temporary name, and the earlier journal a crash may still bring back because the
   cut or the rename that replaced it has not been synced.
   */
  datatype Directory = Directory(
    journal: seq<Byte>,
    journalSynced: bool,
    temporary: Option<seq<Byte>>,
    temporarySynced: bool,
    previous: Option<seq<Byte>>)

  /** What the journal's name can refer to after a crash. */
  ghost predicate CrashLeaves(d: Directory, journal: seq<Byte>)
  {
    (d.journalSynced ==> journal == d.journal) || d.previous == Some(journal)
  }

  /**
   One operation on the directory lies between the two states: creating the temporary file, writing
   to it, syncing it, renaming it over the journal, cutting the journal, or syncing the last two.
   */
  ghost predicate OneOperation(a: Directory, b: Directory)
  {
    || b == a.(temporary := Some([]), temporarySynced := false)
    || (a.temporary.Some? && b.temporary.Some? && a.temporary.value <= b.temporary.value
        && b == a.(temporary := b.temporary, temporarySynced := false))
    || (a.temporary.Some? && b == a.(temporarySynced := true))
    || (a.temporary.Some? && b == Directory(a.temporary.value, a.temporarySynced, None, false, Some(a.journal)))
    || (b.journal <= a.journal && b == a.(journal := b.journal, previous := Some(a.journal)))
    || b == a.(previous := None)
  }

  /** The states of a directory, with none left out. */
  ghost predicate Gapless(images: seq<Directory>)
  {
    forall i, j :: 0 <= i < j < |images| && j == i + 1 ==> OneOperation(images[i], images[j])
  }

  lemma GaplessOne(d: Directory)
    ensures Gapless([d])
  {
  }

  lemma GaplessJoin(images: seq<Directory>, more: seq<Directory>)
    requires Gapless(images) && Gapless(more) && images != [] && more != []
    requires images[|images| - 1] == more[0] && more[0].previous.None?
    ensures Gapless(images + more)
  {
    assert OneOperation(images[|images| - 1], more[0]);
    hide OneOperation;
  }

  ghost predicate OnlyLeaves(d: Directory, a: seq<Byte>, b: seq<Byte>)
  {
    forall j :: CrashLeaves(d, j) ==> j == a || j == b
  }

  datatype Boundary = TailCut | NewFileCreated | Written(count: nat) | NewFileSynced | Renamed | DirectorySynced

  /**
   Writes the replacement under the temporary name, syncs it, renames it over the journal and
   syncs the directory, stopping where `failAt` says. `images` are the directory states a crash
   can meet on the way.
   */
  method ReplaceAtomically(d: Directory, replacement: seq<Byte>, failAt: Option<Boundary>)
    returns (images: seq<Directory>, done: bool)
    requires d.journalSynced && d.previous.None?
    ensures images != [] && images[0] == d
    ensures forall i :: 0 <= i < |images| ==> OnlyLeaves(images[i], d.journal, replacement)
    ensures done ==> OnlyLeaves(images[|images| - 1], replacement, replacement)
    ensures failAt.None? ==> done
    ensures Gapless(images) && (done ==> images[|images| - 1] == Directory(replacement, true, None, false, None))
  {
    var now := d.(temporary := Some([]), temporarySynced := false);
    images, done := [d, now], false;
    if failAt == Some(NewFileCreated) {
      return;
    }
    var count := 0;
    while count < |replacement|
      invariant 0 <= count <= |replacement|
      invariant images != [] && images[0] == d && now.journal == d.journal && now.journalSynced && now.previous.None?
      invariant now.temporary == Some(replacement[..count])
      invariant forall i :: 0 <= i < |images| ==> OnlyLeaves(images[i], d.journal, replacement)
      invariant Gapless(images) && images[|images| - 1] == now
    {
      if failAt == Some(Written(count)) {
        return;
      }
      count := count + 1;
      now := now.(temporary := Some(replacement[..count]), temporarySynced := false);
      images := images + [now];
    }
    now := now.(temporarySynced := true);
    images := images + [now];
    if failAt == Some(NewFileSynced) {
      return;
    }
    now := Directory(now.temporary.value, now.temporarySynced, None, false, Some(now.journal));
    images := images + [now];
    if failAt == Some(Renamed) {
      return;
    }
    now := now.(previous := None);
    images := images + [now];
    done := failAt != Some(DirectorySynced);
  }

  // ----- the whole compaction on disk -----

  /** `b` says what `a` says: length, truncation, identities, seal and covered bytes. */
  ghost predicate SameMeaning(crc: Checksum, a: seq<Byte>, b: seq<Byte>)
    requires Replays(crc, a)
  {
    && Replays(crc, b) && HeaderOf(crc, b) == HeaderOf(crc, a)
    && Says(crc, b) == Says(crc, a).(blocks := Says(crc, b).blocks)
    && SameBytes(Says(crc, b).blocks, Says(crc, a).blocks)
  }

  /** Cutting off the damaged tail changes nothing the journal says. */
  lemma RepairedSays(crc: Checksum, journal: seq<Byte>)
    requires Replays(crc, journal)
    ensures var fixed := Repair(crc, journal);
            && |fixed| <= |journal| && Replays(crc, fixed)
            && Says(crc, fixed) == Says(crc, journal) && HeaderOf(crc, fixed) == HeaderOf(crc, journal)
  {
    hide ReplayBytes, Effective, Repair;
    RepairIdempotent(crc, journal);
  }

  lemma RepairedCompacts(crc: Checksum, hash: Hash, journal: seq<Byte>, part: seq<Byte>, clock: U64, out: seq<Byte>)
    requires Replays(crc, journal)
    ensures Replays(crc, Repair(crc, journal))
    ensures Compacts(crc, hash, Repair(crc, journal), part, clock, out) ==>
              Compacts(crc, hash, journal, part, clock, out)
  {
    hide Packed, SameBytes, EncodesMerged, Replays, Says, HeaderOf, Repair;
    RepairedSays(crc, journal);
  }

  lemma RepairedMeans(crc: Checksum, journal: seq<Byte>)
    requires Replays(crc, journal)
    ensures SameMeaning(crc, journal, journal) && SameMeaning(crc, journal, Repair(crc, journal))
  {
    hide ReplayBytes, Repair, Effective, Covered;
    RepairedSays(crc, journal);
  }

  /** The journal, its repaired form and its compacted form all say the same. */
  lemma CompactionCrashSafe(crc: Checksum, hash: Hash, journal: seq<Byte>, part: seq<Byte>, clock: U64, out: seq<Byte>)
    requires Replays(crc, journal) && |journal| <= I64_MAX
    ensures SameMeaning(crc, journal, journal) && SameMeaning(crc, journal, Repair(crc, journal))
    ensures Compacts(crc, hash, journal, part, clock, out) ==> SameMeaning(crc, journal, out)
  {
    hide Packed, Covered, Effective, ReplayBytes, Compacts, Repair;
    RepairedMeans(crc, journal);
    if Compacts(crc, hash, journal, part, clock, out) {
      CompactionSmall(crc, hash, journal, part, clock, out);
      CompactionKeepsMeaning(crc, hash, journal, part, clock, out);
    }
  }

  /** Whatever journal a crash leaves of this state says what `journal` says. */
  ghost predicate CrashKeepsMeaning(crc: Checksum, journal: seq<Byte>, d: Directory)
    requires Replays(crc, journal)
  {
    forall j :: CrashLeaves(d, j) ==> SameMeaning(crc, journal, j)
  }

  lemma LeavesMeaning(crc: Checksum, journal: seq<Byte>, d: Directory, a: seq<Byte>, b: seq<Byte>)
    requires Replays(crc, journal) && OnlyLeaves(d, a, b)
    requires SameMeaning(crc, journal, a) && SameMeaning(crc, journal, b)
    ensures CrashKeepsMeaning(crc, journal, d)
  {
    hide SameMeaning, Replays;
  }

  /** `recover_journal`: a damaged tail is cut off and the cut synced. */
  method RepairOnDisk(crc: Checksum, d: Directory, failAt: Option<Boundary>)
    returns (images: seq<Directory>, done: bool)
    requires d.journalSynced && d.previous.None? && |d.journal| <= U64_MAX && ReplayBytes(crc, d.journal).Ok?
    ensures images != [] && images[0] == d && (failAt != Some(TailCut) ==> done)
    ensures forall i :: 0 <= i < |images| ==> OnlyLeaves(images[i], d.journal, Repair(crc, d.journal))
    ensures done ==> images[|images| - 1] == d.(journal := Repair(crc, d.journal))
    ensures Gapless(images)
  {
    hide ReplayBytes, Journal, AllEncodable, Numbered;
    ReplayCanonical(crc, d.journal);
    var o := ReplayBytes(crc, d.journal).value;
    images, done := [d], true;
    if o.stop != CleanEof {
      images := images + [d.(journal := d.journal[..o.validBytes], previous := Some(d.journal))];
      if failAt == Some(TailCut) {
        return images, false;
      }
      images := images + [d.(journal := d.journal[..o.validBytes])];
    }
  }

  /**
   Repairs, compacts and replaces, stopping where `failAt` says. Whatever state a crash meets,
   the journal it leaves says what the journal said before; an unreadable one is not touched.
   */
  method CompactOnDisk(crc: Checksum, hash: Hash, d: Directory, part: seq<Byte>, clock: U64, failAt: Option<Boundary>)
    returns (images: seq<Directory>, r: Result<seq<Byte>, CompactionError>)
    requires d.journalSynced && d.previous.None? && |d.journal| <= I64_MAX && |part| <= I64_MAX
    ensures images != [] && images[0] == d && Gapless(images)
    ensures Replays(crc, d.journal) ==>
              forall i :: 0 <= i < |images| ==> CrashKeepsMeaning(crc, d.journal, images[i])
    ensures ReplayBytes(crc, d.journal).Err? ==> images == [d] && r.Err?
    ensures r.Ok? ==> Compacts(crc, hash, d.journal, part, clock, r.value)
                      && OnlyLeaves(images[|images| - 1], r.value, r.value)
    ensures r.Ok? ==> images[|images| - 1] == Directory(r.value, true, None, false, None)
    ensures failAt.None? ==> (r.Ok? <==> Replays(crc, d.journal) && Intactness(hash, part, Says(crc, d.journal).blocks))
  {
    hide ReplayBytes, Repair, Replays, Says, Compacts, Intactness, SameMeaning, CrashKeepsMeaning, CrashLeaves,
      OneOperation, Gapless;
    images := [d];
    GaplessOne(d);
    if ReplayBytes(crc, d.journal).Err? {
      UnreadableSaysNothing(crc, d.journal);
      return images, Err(Unreadable);
    }
    var repaired;
    images, repaired := RepairOnDisk(crc, d, failAt);
    AfterRepair(crc, d.journal, images, Repair(crc, d.journal));
    if !repaired {
      return images, Err(CutFailed);
    }
    var fixed := images[|images| - 1];
    var compacted := CompactJournal(crc, hash, fixed.journal, part, clock);
    CompactsRepaired(crc, hash, d.journal, part, clock, compacted);
    if compacted.Err? {
      return images, Err(compacted.error);
    }
    var more, replaced := ReplaceAtomically(fixed, compacted.value, failAt);
    AfterReplacement(crc, hash, d.journal, part, clock, compacted.value, more);
    GaplessJoin(images, more);
    images := images + more;
    r := if replaced then Ok(compacted.value) else Err(ReplaceFailed);
  }

  lemma UnreadableSaysNothing(crc: Checksum, journal: seq<Byte>)
    requires |journal| <= U64_MAX && ReplayBytes(crc, journal).Err?
    ensures !Replays(crc, journal)
  {
  }

  lemma AfterRepair(crc: Checksum, journal: seq<Byte>, images: seq<Directory>, fixed: seq<Byte>)
    requires |journal| <= I64_MAX && ReplayBytes(crc, journal).Ok? && fixed == Repair(crc, journal)
    requires forall i :: 0 <= i < |images| ==> OnlyLeaves(images[i], journal, fixed)
    ensures |fixed| <= |journal|
    ensures Replays(crc, journal) ==> forall i :: 0 <= i < |images| ==> CrashKeepsMeaning(crc, journal, images[i])
  {
    hide ReplayBytes, Repair, SameMeaning, CrashKeepsMeaning, OnlyLeaves, Effective;
    RepairIdempotent(crc, journal);
    if Replays(crc, journal) {
      RepairedSays(crc, journal);
      RepairedMeans(crc, journal);
      forall i | 0 <= i < |images| ensures CrashKeepsMeaning(crc, journal, images[i]) {
        LeavesMeaning(crc, journal, images[i], journal, fixed);
      }
    }
  }

  lemma CompactsRepaired(crc: Checksum, hash: Hash, journal: seq<Byte>, part: seq<Byte>, clock: U64,
                         r: Result<seq<Byte>, CompactionError>)
    requires |journal| <= I64_MAX && ReplayBytes(crc, journal).Ok?
    requires var fixed := Repair(crc, journal);
             && (r.Ok? <==> Replays(crc, fixed) && Intactness(hash, part, Says(crc, fixed).blocks))
             && (r.Ok? ==> Compacts(crc, hash, fixed, part, clock, r.value))
    ensures r.Ok? <==> Replays(crc, journal) && Intactness(hash, part, Says(crc, journal).blocks)
    ensures r.Ok? ==> Compacts(crc, hash, journal, part, clock, r.value)
  {
    hide ReplayBytes, Repair, Effective, Intactness, Compacts;
    RepairIdempotent(crc, journal);
    if Replays(crc, journal) && r.Ok? {
      RepairedCompacts(crc, hash, journal, part, clock, r.value);
    }
  }

  lemma AfterReplacement(crc: Checksum, hash: Hash, journal: seq<Byte>, part: seq<Byte>, clock: U64, out: seq<Byte>,
                         images: seq<Directory>)
    requires |journal| <= I64_MAX && Replays(crc, journal) && Compacts(crc, hash, journal, part, clock, out)
    requires forall i :: 0 <= i < |images| ==> OnlyLeaves(images[i], Repair(crc, journal), out)
    ensures forall i :: 0 <= i < |images| ==> CrashKeepsMeaning(crc, journal, images[i])
  {
    hide ReplayBytes, Effective, Repair, SameMeaning, CrashKeepsMeaning, OnlyLeaves, Compacts;
    CompactionCrashSafe(crc, hash, journal, part, clock, out);
    forall i | 0 <= i < |images| ensures CrashKeepsMeaning(crc, journal, images[i]) {
      LeavesMeaning(crc, journal, images[i], Repair(crc, journal), out);
    }
  }
}
