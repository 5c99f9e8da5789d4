/**
 The cached checkpoint that recovery compares with the journal and then rewrites.

 The cache never decides anything: it is compared, the difference is reported, and the row is
 replaced by what the journal proved. The theorems say what each report means, that the row
 written by one recovery is found in agreement by the next, and when a row cannot be written: a map
 with more than a million complete ranges makes the recovery fail.
 */
module CheckpointCache {
  import opened Base
  import opened Ownership
  import opened Intervals
  import opened JournalFormat
  import opened Replay
  import opened JournalState
  import opened Recovery

  const MAX_CHECKPOINT_INTERVALS: nat := 1_000_000
  const MAX_CHECKPOINT_BYTES: nat := 64 * 1024 * 1024

  /** The row as the next load finds it: missing, undecodable, or complete ranges of `total` bytes. */
  datatype Cache = NoRow | BadRow | Row(total: U64, ranges: seq<Range>)

  datatype Divergence =
    | NoCheckpoint
    | CheckpointUnreadable
    | Agreed
    | JournalAhead(journalCovered: nat, cacheCovered: nat)
    | CacheAhead(journalCovered: nat, cacheCovered: nat)
    | SameCoverageDifferentIntervals(covered: nat)

  /** How the cache compares with the ranges the journal proves, for a download of `owning` bytes. */
  function Compare(cache: Cache, owning: U64, proven: seq<Range>): Divergence
  {
    match cache
    case NoRow => NoCheckpoint
    case BadRow => CheckpointUnreadable
    case Row(total, ranges) =>
      var cached, journal := TotalBytes(ranges), TotalBytes(proven);
      if total != owning then CheckpointUnreadable
      else if cached == journal then
        if ranges == proven then Agreed else SameCoverageDifferentIntervals(journal)
      else if cached < journal then JournalAhead(journal, cached)
      else CacheAhead(journal, cached)
  }

  /** The complete intervals of a map, in order. */
  function CompleteRanges(ivs: seq<Interval>): seq<Range>
  {
    if ivs == [] then []
    else
      var l := Last(ivs);
      CompleteRanges(Init(ivs)) + if l.state == Complete then [Range(l.start, l.end)] else []
  }

  /** The bytes of a CBOR head with argument `n`, sections 3 and 4.2.1 of RFC 8949. */
  function HeadLen(n: nat): nat
  {
    if n < 24 then 1 else if n < 0x100 then 2 else if n < 0x1_0000 then 3 else if n < 0x1_0000_0000 then 5 else 9
  }

  function RangesLen(ranges: seq<Range>): nat
  {
    if ranges == [] then 0
    else
      var r := ranges[|ranges| - 1];
      RangesLen(ranges[..|ranges| - 1]) + HeadLen(2) + HeadLen(r.lo) + HeadLen(r.hi)
  }

  /** The encoded row: version, total, covered bytes, and the ranges as pairs. */
  function RowLen(total: nat, ranges: seq<Range>): nat
  {
    HeadLen(4) + HeadLen(1) + HeadLen(total) + HeadLen(TotalBytes(ranges)) + HeadLen(|ranges|) + RangesLen(ranges)
  }

  datatype CacheError = RecoveryFailed(error: RecoveryError) | TooManyIntervals(actual: nat)

  /** Too many ranges are an error; a row that encodes too large is not written, and the old one stays. */
  function Save(cache: Cache, m: Owners): Result<Cache, CacheError>
    requires |m| <= U64_MAX
  {
    var ranges := CompleteRanges(Runs(m));
    if |ranges| > MAX_CHECKPOINT_INTERVALS then Err(TooManyIntervals(|ranges|))
    else if RowLen(|m|, ranges) > MAX_CHECKPOINT_BYTES then Ok(cache)
    else Ok(Row(|m|, ranges))
  }

  lemma {:induction false} RangesLenBound(ranges: seq<Range>)
    ensures RangesLen(ranges) <= 19 * |ranges|
  {
    if ranges != [] {
      RangesLenBound(ranges[..|ranges| - 1]);
    }
  }

  /** The byte limit is never what stops a row: a million ranges encode to less. */
  lemma ByteLimitUnused(cache: Cache, m: Owners)
    requires |m| <= U64_MAX
    ensures var ranges := CompleteRanges(Runs(m));
            Save(cache, m) == if |ranges| <= MAX_CHECKPOINT_INTERVALS then Ok(Row(|m|, ranges))
                              else Err(TooManyIntervals(|ranges|))
  {
    hide CompleteRanges, Runs, RangesLen, TotalBytes;
    RangesLenBound(CompleteRanges(Runs(m)));
  }

  /** The ranges that the journal proves and the part file still holds. */
  ghost function Proven(crc: Checksum, files: Artifacts): seq<Range>
    requires files.part.Some? && files.journal.Some? && Replays(crc, files.journal.value)
  {
    MergeAdjacent(Inside(Says(crc, files.journal.value).blocks, |files.part.value|))
  }

  // ----- one set of bytes, one list of ranges -----

  /** In order, and no two ranges touch. */
  ghost predicate Separated(ranges: seq<Range>)
  {
    && (forall i :: 0 <= i < |ranges| ==> ranges[i].lo < ranges[i].hi)
    && (forall i, j :: 0 <= i < j < |ranges| ==> ranges[i].hi < ranges[j].lo)
  }

  /** Where a byte lies relative to the last range. */
  lemma SeparatedLast(ranges: seq<Range>, b: nat)
    requires Separated(ranges) && ranges != []
    ensures var n, last := |ranges| - 1, ranges[|ranges| - 1];
            && Separated(ranges[..n])
            && (InRanges(ranges, b) <==> InRanges(ranges[..n], b) || InRange(last, b))
            && (InRanges(ranges[..n], b) ==> b + 1 < last.lo)
  {
    InRangesLast(ranges, b);
  }

  /** Ranges that do not touch are determined by their bytes. */
  lemma {:induction false} SeparatedUnique(a: seq<Range>, c: seq<Range>)
    requires Separated(a) && Separated(c)
    requires forall b: nat :: InRanges(a, b) <==> InRanges(c, b)
    ensures a == c
    decreases |a|
  {
    hide InRanges, Separated;
    if a == [] {
      NoBytes(a, c);
    } else if c == [] {
      NoBytes(c, a);
    } else {
      var n, k := |a| - 1, |c| - 1;
      LastWithin(a, c);
      LastWithin(c, a);
      forall b: nat ensures InRanges(a[..n], b) <==> InRanges(c[..k], b) {
        SeparatedLast(a, b);
        SeparatedLast(c, b);
      }
      SeparatedLast(a, 0);
      SeparatedLast(c, 0);
      SeparatedUnique(a[..n], c[..k]);
    }
  }

  lemma NoBytes(a: seq<Range>, c: seq<Range>)
    requires a == [] && Separated(c) && forall b: nat :: InRanges(a, b) <==> InRanges(c, b)
    ensures c == []
  {
    if c != [] {
      assert InRange(c[0], c[0].lo);
      assert InRanges(c, c[0].lo);
    }
  }

  /** The last range of one list lies inside the last range of the other. */
  lemma LastWithin(a: seq<Range>, c: seq<Range>)
    requires Separated(a) && Separated(c) && a != [] && c != []
    requires forall b: nat :: InRanges(a, b) <==> InRanges(c, b)
    ensures c[|c| - 1].lo <= a[|a| - 1].lo && a[|a| - 1].hi <= c[|c| - 1].hi
  {
    hide InRanges;
    var x, y := a[|a| - 1], c[|c| - 1];
    SeparatedLast(a, x.hi - 1);
    SeparatedLast(c, x.hi - 1);
    SeparatedLast(c, y.hi - 1);
    SeparatedLast(a, y.hi - 1);
    if x.lo < y.lo {
      SeparatedLast(a, y.lo - 1);
      SeparatedLast(c, y.lo - 1);
    }
  }

  // ----- the rows recovery writes -----

  /** Merging leaves no two ranges touching. */
  lemma {:induction false} MergeSeparated(blocks: seq<CompletedBlock>)
    requires Ordered(blocks) && NonEmpty(blocks)
    ensures Separated(MergeAdjacent(blocks))
  {
    if blocks != [] {
      var init, l := blocks[..|blocks| - 1], blocks[|blocks| - 1];
      MergeSeparated(init);
      MergeKeepsBytes(init);
      PushSeparated(MergeAdjacent(init), l.offset, End(l));
    }
  }

  lemma PushSeparated(merged: seq<Range>, lo: nat, hi: nat)
    requires Separated(merged) && LastEnd(merged) <= lo < hi
    ensures Separated(PushRange(merged, lo, hi))
  {
  }

  /** The complete intervals of a canonical map do not touch, and cover its complete bytes. */
  lemma {:induction false} CompleteRangesOf(ivs: seq<Interval>, m: Owners)
    requires Describes(ivs, m) && Merged(ivs)
    ensures Separated(CompleteRanges(ivs))
    ensures LastEnd(CompleteRanges(ivs)) <= |m|
    ensures LastEnd(CompleteRanges(ivs)) == |m| > 0 ==> Last(ivs).state == Complete
    ensures forall b: nat :: InRanges(CompleteRanges(ivs), b) <==> b < |m| && m[b] == Complete
  {
    hide InRanges, Separated, Describes, Merged;
    if ivs == [] {
      NothingComplete(m);
    } else {
      var l := Last(ivs);
      DropLast(ivs, m);
      CompleteRangesOf(Init(ivs), m[..l.start]);
      OneMore(CompleteRanges(Init(ivs)), l, m);
    }
  }

  lemma NothingComplete(m: Owners)
    requires Describes([], m)
    ensures m == [] && Separated([]) && forall b: nat :: !InRanges([], b)
  {
  }

  lemma DropLast(ivs: seq<Interval>, m: Owners)
    requires Describes(ivs, m) && Merged(ivs) && ivs != []
    ensures var l := Last(ivs);
            && l.start < l.end == |m| && AllAre(m, l.start, l.end, l.state)
            && Describes(Init(ivs), m[..l.start]) && Merged(Init(ivs))
            && (l.start > 0 <==> Init(ivs) != []) && (l.start > 0 ==> Last(Init(ivs)).state != l.state)
  {
    var l, init := Last(ivs), Init(ivs);
    InitTiles(ivs, |m|);
    forall k | 0 <= k < |init|
      ensures init[k].end <= l.start && AllAre(m[..l.start], init[k].start, init[k].end, init[k].state)
    {
      DisjointOrder(ivs, |m|, k, |ivs| - 1);
    }
  }

  lemma OneMore(ranges: seq<Range>, l: Interval, m: Owners)
    requires l.start < l.end == |m| && AllAre(m, l.start, l.end, l.state)
    requires Separated(ranges) && LastEnd(ranges) <= l.start
    requires LastEnd(ranges) == l.start > 0 ==> l.state != Complete
    requires forall b: nat :: InRanges(ranges, b) <==> b < l.start && m[b] == Complete
    ensures var r := ranges + if l.state == Complete then [Range(l.start, l.end)] else [];
            && Separated(r) && LastEnd(r) <= |m| && (LastEnd(r) == |m| ==> l.state == Complete)
            && forall b: nat :: InRanges(r, b) <==> b < |m| && m[b] == Complete
  {
    hide InRanges;
    var r := ranges + if l.state == Complete then [Range(l.start, l.end)] else [];
    if l.state == Complete {
      BeforeLast(ranges);
      assert r[..|r| - 1] == ranges;
      forall b: nat ensures InRanges(r, b) <==> b < |m| && m[b] == Complete {
        InRangesLast(r, b);
      }
    } else {
      assert r == ranges;
    }
  }

  lemma BeforeLast(ranges: seq<Range>)
    requires Separated(ranges)
    ensures forall i :: 0 <= i < |ranges| ==> ranges[i].hi <= LastEnd(ranges)
    ensures LastEnd(ranges) == 0 ==> ranges == []
  {
  }

  /** The row written for a rebuilt map lists exactly the ranges the journal proved. */
  lemma SavedIsProven(kept: seq<CompletedBlock>, m: Owners)
    requires Ordered(kept) && NonEmpty(kept)
    requires forall b: nat :: Covered(kept, b) <==> b < |m| && m[b] == Complete
    ensures CompleteRanges(Runs(m)) == MergeAdjacent(kept)
  {
    hide InRanges, Covered, Separated, Runs, Describes, Merged, CompleteRanges, MergeAdjacent;
    RunsDescribe(m);
    CompleteRangesOf(Runs(m), m);
    MergeSeparated(kept);
    MergeKeepsBytes(kept);
    SeparatedUnique(CompleteRanges(Runs(m)), MergeAdjacent(kept));
  }

  lemma {:induction false} CountGrows(a: Owners, c: Owners)
    requires |a| == |c| && forall b :: 0 <= b < |a| && a[b] == Complete ==> c[b] == Complete
    ensures Count(a, Complete) <= Count(c, Complete)
    ensures Count(a, Complete) == Count(c, Complete) <==>
            forall b :: 0 <= b < |a| ==> (a[b] == Complete <==> c[b] == Complete)
  {
    if a != [] {
      CountGrows(a[..|a| - 1], c[..|c| - 1]);
    }
  }

  ghost predicate Within(ranges: seq<Range>, length: nat)
  {
    Separated(ranges) && forall i :: 0 <= i < |ranges| ==> ranges[i].hi <= length
  }

  /**
   A cache that claims nothing beyond the journal either agrees or lags, and it agrees exactly
   when it claims the same bytes.
   */
  lemma LaggingCache(length: U64, ranges: seq<Range>, proven: seq<Range>)
    requires Within(ranges, length) && Within(proven, length)
    requires forall b: nat :: InRanges(ranges, b) ==> InRanges(proven, b)
    ensures var d := Compare(Row(length, ranges), length, proven);
            && (d == Agreed <==> forall b: nat :: InRanges(proven, b) ==> InRanges(ranges, b))
            && (d != Agreed ==> d == JournalAhead(TotalBytes(proven), TotalBytes(ranges)))
  {
    hide InRanges, TotalBytes, Rebuild, Count;
    RebuildExact(length, ranges);
    RebuildExact(length, proven);
    var a, c := Rebuild(length, ranges).value, Rebuild(length, proven).value;
    CountGrows(a, c);
    if TotalBytes(ranges) == TotalBytes(proven) {
      forall b: nat ensures InRanges(ranges, b) <==> InRanges(proven, b) {
        InsideLength(ranges, length, b);
        InsideLength(proven, length, b);
        assert b < length ==> (a[b] == Complete <==> c[b] == Complete);
      }
      SeparatedUnique(ranges, proven);
    }
  }

  lemma InsideLength(ranges: seq<Range>, length: nat, b: nat)
    requires Within(ranges, length)
    ensures InRanges(ranges, b) ==> b < length
  {
  }

  /** The map of `length` bytes that is complete exactly on the ranges. */
  ghost predicate Marks(m: Owners, length: nat, ranges: seq<Range>)
  {
    |m| == length && forall b :: 0 <= b < length ==> (m[b] == Complete <==> InRanges(ranges, b))
  }

  lemma MarksCount(m: Owners, length: U64, ranges: seq<Range>)
    requires Within(ranges, length) && Marks(m, length, ranges)
    ensures TotalBytes(ranges) == Count(m, Complete)
  {
    hide InRanges, TotalBytes, Rebuild, Count;
    RebuildExact(length, ranges);
    var r := Rebuild(length, ranges).value;
    CountGrows(m, r);
    CountGrows(r, m);
  }

  /**
   The report, said of the bytes: agreement exactly when cache and journal claim the same ones, and
   otherwise whichever claims more is ahead. A row for another length is as good as unreadable.
   */
  lemma Compared(length: U64, ranges: seq<Range>, proven: seq<Range>, other: U64, cached: Owners, journal: Owners)
    requires Within(ranges, length) && Within(proven, length)
    requires Marks(cached, length, ranges) && Marks(journal, length, proven)
    ensures var d := Compare(Row(length, ranges), length, proven);
            var c, j := Count(cached, Complete), Count(journal, Complete);
            && (d == Agreed <==> forall b :: 0 <= b < length ==> (cached[b] == Complete <==> journal[b] == Complete))
            && (c < j ==> d == JournalAhead(j, c)) && (c > j ==> d == CacheAhead(j, c))
            && (c == j && d != Agreed ==> d == SameCoverageDifferentIntervals(j))
    ensures other != length ==> Compare(Row(other, ranges), length, proven) == CheckpointUnreadable
    ensures Compare(NoRow, length, proven) == NoCheckpoint && Compare(BadRow, length, proven) == CheckpointUnreadable
  {
    hide InRanges, TotalBytes, Count;
    MarksCount(cached, length, ranges);
    MarksCount(journal, length, proven);
    if forall b :: 0 <= b < length ==> (cached[b] == Complete <==> journal[b] == Complete) {
      forall b: nat ensures InRanges(ranges, b) <==> InRanges(proven, b) {
        InsideLength(ranges, length, b);
        InsideLength(proven, length, b);
        assert b < length ==> (cached[b] == Complete <==> journal[b] == Complete);
      }
      SeparatedUnique(ranges, proven);
    }
  }

  // ----- recovering twice -----

  /** What a recovery leaves: its result, what it reported of the cache, and the row it wrote. */
  datatype Outcome = Outcome(recovered: Recovered, divergence: Divergence, cache: Cache)

  ghost function ReconcileCached(crc: Checksum, id: TransferId, meta: Metadata, files: Artifacts, cache: Cache):
    Result<Outcome, CacheError>
    requires files.journal.Some? ==> |files.journal.value| <= U64_MAX
  {
    match Reconcile(crc, id, Some(meta), files)
    case Err(e) => Err(RecoveryFailed(e))
    case Ok(r) =>
      if r.report.state != Paused then Ok(Outcome(r, NoCheckpoint, cache))
      else
        PausedLength(crc, id, meta, files);
        match Save(cache, r.report.owners)
        case Err(e) => Err(e)
        case Ok(saved) =>
          if files.journal.None? then Ok(Outcome(r, NoCheckpoint, saved))
          else Ok(Outcome(r, Compare(cache, meta.totalLength.value, Proven(crc, files)), saved))
  }

  lemma PausedLength(crc: Checksum, id: TransferId, meta: Metadata, files: Artifacts)
    requires files.journal.Some? ==> |files.journal.value| <= U64_MAX
    requires var r := Reconcile(crc, id, Some(meta), files); r.Ok? && r.value.report.state == Paused
    ensures |Reconcile(crc, id, Some(meta), files).value.report.owners| <= U64_MAX && meta.totalLength.Some?
    ensures files.journal.Some? ==> Reconcilable(crc, id, meta, files)
  {
    hide ReplayBytes, Effective, ReconcileJournal;
    ReconcileRefusals(crc, id, meta, files);
    if files.journal.Some? {
      ReconcileExact(crc, id, meta, files);
    }
  }

  /** The blocks a recovery keeps are ordered, non-empty and inside the representation. */
  lemma KeptBlocks(crc: Checksum, journal: seq<Byte>, observed: nat)
    requires Replays(crc, journal)
    ensures var s := Says(crc, journal);
            var kept := Inside(s.blocks, observed);
            && Ordered(kept) && NonEmpty(kept) && (forall b: nat :: Covered(kept, b) ==> b < s.effectiveLength)
            && (forall b: nat :: Covered(kept, b) ==> Covered(s.blocks, b))
            && Ordered(s.blocks) && NonEmpty(s.blocks)
            && (forall i :: 0 <= i < |s.blocks| ==> End(s.blocks[i]) <= s.effectiveLength)
  {
    hide ReplayBytes, Effective, Inside;
    var o := ReplayBytes(crc, journal).value;
    EffectiveBlocks(o.header, RecordsOf(o.records));
    var s := Says(crc, journal);
    InsideOrdered(s.blocks, observed);
    InsideMembers(s.blocks, observed);
    var kept := Inside(s.blocks, observed);
    forall b: nat | Covered(kept, b) ensures b < s.effectiveLength && Covered(s.blocks, b) {
      var i :| 0 <= i < |kept| && kept[i].offset <= b < End(kept[i]);
      assert kept[i] in s.blocks;
      var j :| 0 <= j < |s.blocks| && s.blocks[j] == kept[i];
    }
  }

  lemma ProvenRanges(crc: Checksum, files: Artifacts)
    requires files.part.Some? && files.journal.Some? && Replays(crc, files.journal.value)
    ensures var s := Says(crc, files.journal.value);
            && Within(Proven(crc, files), s.effectiveLength)
            && forall b: nat :: InRanges(Proven(crc, files), b) <==>
                 Covered(Inside(s.blocks, |files.part.value|), b)
  {
    hide ReplayBytes, Effective, Inside, Covered, InRanges, MergeAdjacent, Separated;
    KeptBlocks(crc, files.journal.value, |files.part.value|);
    var s := Says(crc, files.journal.value);
    var kept := Inside(s.blocks, |files.part.value|);
    MergeKeepsBytes(kept);
    MergeSeparated(kept);
    var r := Proven(crc, files);
    forall i | 0 <= i < |r| ensures r[i].hi <= s.effectiveLength {
      EndInside(r, i);
    }
  }

  lemma EndInside(ranges: seq<Range>, i: nat)
    requires Separated(ranges) && i < |ranges|
    ensures ranges[i].lo < ranges[i].hi && InRanges(ranges, ranges[i].hi - 1)
  {
    assert InRange(ranges[i], ranges[i].hi - 1);
  }

  /**
   Recovery succeeds exactly when the journal proves no more ranges than a row may hold, and then the
   row it writes is the journal's own list of ranges, whatever the cache held before.
   */
  lemma RowIsProven(crc: Checksum, id: TransferId, meta: Metadata, files: Artifacts, cache: Cache)
    requires Reconcilable(crc, id, meta, files)
    ensures var r, ranges := ReconcileCached(crc, id, meta, files, cache), Proven(crc, files);
            if |ranges| <= 1_000_000 then
              && r.Ok? && r.value.cache == Row(Says(crc, files.journal.value).effectiveLength, ranges)
              && Ok(r.value.recovered) == Reconcile(crc, id, Some(meta), files)
              && r.value.divergence == Compare(cache, meta.totalLength.value, ranges)
            else r == Err(TooManyIntervals(|ranges|))
  {
    hide ReplayBytes, Effective, Inside, Covered, Reconcile, Runs, CompleteRanges, MergeAdjacent, Count, Save, Compare;
    ReconcileExact(crc, id, meta, files);
    KeptBlocks(crc, files.journal.value, |files.part.value|);
    var s := Says(crc, files.journal.value);
    var m := Reconcile(crc, id, Some(meta), files).value.report.owners;
    SavedIsProven(Inside(s.blocks, |files.part.value|), m);
    ByteLimitUnused(cache, m);
  }

  /**
   Recovering again finds the row the first recovery wrote in agreement exactly when the part
   file had held every surviving block; otherwise the row lags, and never leads. Either recovery fails
   exactly when there are too many ranges for a row.
   */
  lemma SecondAgrees(crc: Checksum, id: TransferId, meta: Metadata, files: Artifacts, cache: Cache)
    requires Reconcilable(crc, id, meta, files)
    requires Says(crc, files.journal.value).effectiveLength == meta.totalLength.value
    ensures var first := ReconcileCached(crc, id, meta, files, cache);
            && (first.Ok? <==> |Proven(crc, files)| <= 1_000_000)
            && (first.Ok? ==>
                  var f := first.value;
                  && Reconcilable(crc, id, f.recovered.metadata, f.recovered.files)
                  && var second := ReconcileCached(crc, id, f.recovered.metadata, f.recovered.files, f.cache);
                     && (second.Ok? <==> |Proven(crc, f.recovered.files)| <= 1_000_000)
                     && (second.Ok? ==>
                           && (second.value.divergence == Agreed <==>
                               forall i :: 0 <= i < |Says(crc, files.journal.value).blocks| ==>
                                 End(Says(crc, files.journal.value).blocks[i]) <= |files.part.value|)
                           && (second.value.divergence != Agreed ==> second.value.divergence.JournalAhead?)))
  {
    hide ReplayBytes, Effective, Inside, Covered, Reconcile, Save, Proven, InRanges, Within, TotalBytes, Count, Compare,
      ReconcileCached;
    RowIsProven(crc, id, meta, files, cache);
    ReconcileExact(crc, id, meta, files);
    var first := Reconcile(crc, id, Some(meta), files).value;
    SecondLook(crc, id, meta, files, first);
    RowIsProven(crc, id, first.metadata, first.files,
                Row(Says(crc, files.journal.value).effectiveLength, Proven(crc, files)));
    ProvenRanges(crc, files);
    ProvenRanges(crc, first.files);
    SecondSees(crc, files, first.files);
    LaggingCache(meta.totalLength.value, Proven(crc, files), Proven(crc, first.files));
  }

  /** Once the part file is whole again, every surviving block counts. */
  lemma SecondSees(crc: Checksum, files: Artifacts, grown: Artifacts)
    requires files.part.Some? && files.journal.Some? && Replays(crc, files.journal.value)
    requires grown.part.Some? && grown.journal.Some? && Replays(crc, grown.journal.value)
    requires Says(crc, grown.journal.value) == Says(crc, files.journal.value)
    requires |grown.part.value| >= Says(crc, files.journal.value).effectiveLength
    ensures forall b: nat :: InRanges(Proven(crc, files), b) ==> InRanges(Proven(crc, grown), b)
    ensures (forall b: nat :: InRanges(Proven(crc, grown), b) ==> InRanges(Proven(crc, files), b)) <==>
            forall i :: 0 <= i < |Says(crc, files.journal.value).blocks| ==>
              End(Says(crc, files.journal.value).blocks[i]) <= |files.part.value|
  {
    hide ReplayBytes, Effective, Inside, Covered, InRanges, Proven, Within;
    ProvenRanges(crc, files);
    ProvenRanges(crc, grown);
    KeptBlocks(crc, files.journal.value, |files.part.value|);
    var s := Says(crc, files.journal.value);
    InsideAll(s.blocks, |grown.part.value|);
    if forall i :: 0 <= i < |s.blocks| ==> End(s.blocks[i]) <= |files.part.value| {
      InsideAll(s.blocks, |files.part.value|);
    } else {
      var i :| 0 <= i < |s.blocks| && End(s.blocks[i]) > |files.part.value|;
      DroppedByte(s.blocks, |files.part.value|, i);
    }
  }

  // ----- a recovery that fails -----

  /** Every second byte complete: `n` ranges of one byte. */
  function Striped(n: nat): (m: Owners)
    ensures |m| == 2 * n
    ensures forall b :: 0 <= b < 2 * n ==> m[b] == if b % 2 == 0 then Complete else Pending
  {
    seq(2 * n, b => if b % 2 == 0 then Complete else Pending)
  }

  lemma StripedRanges(n: nat)
    ensures |CompleteRanges(Runs(Striped(n)))| == n
  {
    hide Runs, CompleteRanges, Describes, Merged;
    var m, ranges := Striped(n), seq(n, (i: nat) => Range(2 * i, 2 * i + 1));
    RunsDescribe(m);
    CompleteRangesOf(Runs(m), m);
    forall b: nat ensures InRanges(ranges, b) <==> b < |m| && m[b] == Complete {
      if b < |m| && b % 2 == 0 {
        assert InRange(ranges[b / 2], b);
      }
    }
    SeparatedUnique(CompleteRanges(Runs(m)), ranges);
  }

  /** A map of 2,000,002 bytes, every second one complete, has a range too many, whatever the cache held. */
  lemma FragmentedRefused(cache: Cache)
    ensures Save(cache, Striped(1_000_001)) == Err(TooManyIntervals(1_000_001))
  {
    hide Striped, CompleteRanges, Runs, RowLen;
    StripedRanges(1_000_001);
  }
}
