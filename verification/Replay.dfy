/**
 Reading a journal back after a crash, and cutting off a damaged tail.

 `ReplayBytes` is what replay returns for the bytes of a journal file. The theorems say that it
 recovers exactly the whole records before a cut, that the bytes it keeps are the encoding of
 what it returned, and that repairing and appending behave accordingly. `ReplayReader` is the
 reading loop, shown to compute the same thing however the reader chunks its reads.
 */
module Replay {
  import opened Base
  import opened LittleEndian
  import opened JournalFormat

  datatype ReplayStop =
    | CleanEof
    | DamagedTail(error: FormatError)
    | SequenceGap(expected: U64, found: U64)

  datatype ReplayOutcome =
    ReplayOutcome(header: FileHeader, records: seq<FramedRecord>, validBytes: nat, stop: ReplayStop)

  datatype ReplayError = BadHeader(error: FormatError) | ReadFailed

  /** What follows the header: the records kept, the bytes they span and why the scan stopped. */
  datatype Scanned = Scanned(records: seq<FramedRecord>, bytes: nat, stop: ReplayStop)

  const MIN_FRAME_LEN: nat := RECORD_PREFIX_LEN + CHECKSUM_LEN

  /**
   A file offset fits `u64`, so a frame number is far below that bound: neither of the
   source's overflow exits can be taken, which is what the precondition carries along.
   */
  function Scan(crc: Checksum, b: seq<Byte>, expected: nat): (s: Scanned)
    requires MIN_FRAME_LEN * expected + |b| <= U64_MAX
    ensures s.bytes <= |b|
  {
    if b == [] then Scanned([], 0, CleanEof)
    else
      match DecodeFrame(crc, b)
      case Err(e) => Scanned([], 0, DamagedTail(e))
      case Ok((f, n)) =>
        if f.sequence != expected then Scanned([], 0, SequenceGap(expected, f.sequence))
        else
          var rest := Scan(crc, b[n..], expected + 1);
          Scanned([f] + rest.records, n + rest.bytes, rest.stop)
  }

  function ReplayBytes(crc: Checksum, b: seq<Byte>): Result<ReplayOutcome, FormatError>
    requires |b| <= U64_MAX
  {
    match DecodeHeader(crc, b)
    case Err(e) => Err(e)
    case Ok(h) =>
      var s := Scan(crc, b[HEADER_LEN..], 0);
      Ok(ReplayOutcome(h, s.records, HEADER_LEN + s.bytes, s.stop))
  }

  /** The file after `recover_journal`: a damaged suffix is cut off, a clean file is untouched. */
  function Repair(crc: Checksum, b: seq<Byte>): seq<Byte>
    requires |b| <= U64_MAX && ReplayBytes(crc, b).Ok?
  {
    var o := ReplayBytes(crc, b).value;
    if o.stop == CleanEof then b else b[..o.validBytes]
  }

  // ----- well-formed journals -----

  predicate Encodable(r: JournalRecord) { |PayloadOf(r)| <= MAX_PAYLOAD_LEN }

  predicate AllEncodable(recs: seq<JournalRecord>)
  {
    forall i :: 0 <= i < |recs| ==> Encodable(recs[i])
  }

  function Frame(crc: Checksum, sequence: U64, r: JournalRecord): (b: seq<Byte>)
    requires Encodable(r)
    ensures EncodeFrame(crc, FramedRecord(sequence, r)) == Ok(b) && |b| == MIN_FRAME_LEN + |PayloadOf(r)|
  {
    EncodeFrame(crc, FramedRecord(sequence, r)).value
  }

  /** Sequence numbers `from`, `from + 1`, … attached to records in order. */
  function Numbered(recs: seq<JournalRecord>, from: nat): (s: seq<FramedRecord>)
    requires from + |recs| <= U64_MAX
    ensures |s| == |recs|
    ensures forall i :: 0 <= i < |recs| ==> s[i] == FramedRecord(from + i, recs[i])
  {
    seq(|recs|, i requires 0 <= i < |recs| => FramedRecord(from + i, recs[i]))
  }

  function EncodeAll(crc: Checksum, recs: seq<JournalRecord>, from: nat): seq<Byte>
    requires AllEncodable(recs) && from + |recs| <= U64_MAX
  {
    if recs == [] then [] else Frame(crc, from, recs[0]) + EncodeAll(crc, recs[1..], from + 1)
  }

  function Journal(crc: Checksum, h: FileHeader, recs: seq<JournalRecord>): seq<Byte>
    requires AllEncodable(recs) && |recs| <= U64_MAX
  {
    EncodeHeader(crc, h) + EncodeAll(crc, recs, 0)
  }

  lemma {:induction false} EncodeAllLength(crc: Checksum, recs: seq<JournalRecord>, from: nat)
    requires AllEncodable(recs) && from + |recs| <= U64_MAX
    ensures |EncodeAll(crc, recs, from)| >= MIN_FRAME_LEN * |recs|
  {
    hide Frame, EncodeFrame, PayloadOf;
    if recs != [] {
      EncodeAllLength(crc, recs[1..], from + 1);
    }
  }

  lemma ConsConcat(crc: Checksum, a: seq<JournalRecord>, b: seq<JournalRecord>, from: nat)
    requires a != [] && AllEncodable(a) && AllEncodable(b) && from + |a| + |b| <= U64_MAX
    ensures AllEncodable(a + b) && AllEncodable(a[1..] + b)
    ensures EncodeAll(crc, a + b, from) == Frame(crc, from, a[0]) + EncodeAll(crc, a[1..] + b, from + 1)
  {
    hide Frame, EncodeFrame, PayloadOf;
    assert (a + b)[1..] == a[1..] + b;
  }

  lemma {:induction false} EncodeAllConcat(crc: Checksum, a: seq<JournalRecord>, b: seq<JournalRecord>, from: nat)
    requires AllEncodable(a) && AllEncodable(b) && from + |a| + |b| <= U64_MAX
    ensures AllEncodable(a + b)
    ensures EncodeAll(crc, a + b, from) == EncodeAll(crc, a, from) + EncodeAll(crc, b, from + |a|)
  {
    hide Frame, EncodeFrame, PayloadOf;
    if a == [] {
      assert a + b == b;
    } else {
      EncodeAllConcat(crc, a[1..], b, from + 1);
      ConsConcat(crc, a, b, from);
    }
  }

  /** How many frames lie wholly inside the first `n` bytes. */
  function WholeFrames(crc: Checksum, recs: seq<JournalRecord>, from: nat, n: nat): (k: nat)
    requires AllEncodable(recs) && from + |recs| <= U64_MAX
    ensures k <= |recs|
  {
    if recs == [] || n < |Frame(crc, from, recs[0])| then 0
    else 1 + WholeFrames(crc, recs[1..], from + 1, n - |Frame(crc, from, recs[0])|)
  }

  /** `WholeFrames` is the largest number of frames that fit. */
  lemma {:induction false} WholeFramesFit(crc: Checksum, recs: seq<JournalRecord>, from: nat, n: nat, k: nat)
    requires AllEncodable(recs) && from + |recs| <= U64_MAX && k <= |recs|
    ensures |EncodeAll(crc, recs[..k], from)| <= n <==> k <= WholeFrames(crc, recs, from, n)
  {
    hide Frame, EncodeFrame, PayloadOf;
    if recs != [] && k > 0 {
      var f := |Frame(crc, from, recs[0])|;
      assert recs[..k][1..] == recs[1..][..k - 1] && recs[..k][0] == recs[0];
      if n >= f {
        WholeFramesFit(crc, recs[1..], from + 1, n - f, k - 1);
      }
    }
  }

  // ----- prefix exactness -----

  ghost predicate StopsAt(stop: ReplayStop, clean: bool)
  {
    if clean then stop == CleanEof else stop.DamagedTail? && stop.error.Truncated?
  }

  lemma ScanOne(crc: Checksum, r: JournalRecord, rest: seq<Byte>, from: nat)
    requires Encodable(r) && from <= U64_MAX
    requires MIN_FRAME_LEN * from + |Frame(crc, from, r)| + |rest| <= U64_MAX
    ensures var tail := Scan(crc, rest, from + 1);
            var f := Frame(crc, from, r);
            Scan(crc, f + rest, from)
            == Scanned([FramedRecord(from, r)] + tail.records, |f| + tail.bytes, tail.stop)
  {
    hide Frame, EncodeFrame, DecodeFrame, PayloadOf;
    FrameRoundTrip(crc, FramedRecord(from, r), rest);
    assert (Frame(crc, from, r) + rest)[|Frame(crc, from, r)|..] == rest;
  }

  lemma ScanCut(crc: Checksum, r: JournalRecord, from: nat, n: nat)
    requires Encodable(r) && from <= U64_MAX && n < |Frame(crc, from, r)|
    requires MIN_FRAME_LEN * from + n <= U64_MAX
    ensures var s := Scan(crc, Frame(crc, from, r)[..n], from);
            s.records == [] && s.bytes == 0 && StopsAt(s.stop, n == 0)
  {
    if n > 0 {
      FrameCut(crc, FramedRecord(from, r), n);
    }
  }

  lemma ScanEmpty(crc: Checksum, from: nat)
    requires MIN_FRAME_LEN * from <= U64_MAX
    ensures Scan(crc, [], from) == Scanned([], 0, CleanEof)
  {
  }

  /** Scanning a cut stream of frames keeps exactly the frames wholly before the cut. */
  lemma {:induction false} ScanPrefix(crc: Checksum, recs: seq<JournalRecord>, from: nat, n: nat)
    requires AllEncodable(recs) && from + |recs| <= U64_MAX
    requires n <= |EncodeAll(crc, recs, from)| && MIN_FRAME_LEN * from + n <= U64_MAX
    ensures var s := Scan(crc, EncodeAll(crc, recs, from)[..n], from);
            var k := WholeFrames(crc, recs, from, n);
            && s.records == Numbered(recs[..k], from)
            && s.bytes == |EncodeAll(crc, recs[..k], from)| <= n
            && StopsAt(s.stop, s.bytes == n)
    decreases |recs|
  {
    hide Frame, EncodeFrame, PayloadOf, Scan, Numbered, Encodable;
    var e := EncodeAll(crc, recs, from);
    if recs == [] {
      ScanEmpty(crc, from);
      assert e[..n] == [];
    } else {
      var f, tail := Frame(crc, from, recs[0]), EncodeAll(crc, recs[1..], from + 1);
      if n < |f| {
        assert e[..n] == f[..n];
        ScanCut(crc, recs[0], from, n);
      } else {
        assert e[..n] == f + tail[..n - |f|];
        ScanPrefix(crc, recs[1..], from + 1, n - |f|);
        ScanOne(crc, recs[0], tail[..n - |f|], from);
        var k := WholeFrames(crc, recs[1..], from + 1, n - |f|);
        NumberedCons(crc, recs, from, k + 1);
      }
    }
  }

  lemma NumberedCons(crc: Checksum, recs: seq<JournalRecord>, from: nat, k: nat)
    requires AllEncodable(recs) && from + |recs| <= U64_MAX && 0 < k <= |recs|
    ensures Numbered(recs[..k], from) == [FramedRecord(from, recs[0])] + Numbered(recs[1..][..k - 1], from + 1)
    ensures EncodeAll(crc, recs[..k], from) == Frame(crc, from, recs[0]) + EncodeAll(crc, recs[1..][..k - 1], from + 1)
  {
    hide Frame, EncodeFrame, PayloadOf;
    assert recs[..k][1..] == recs[1..][..k - 1];
  }

  /** Cutting a well-formed journal past its header loses exactly the records the cut touches. */
  lemma ReplayPrefixExact(crc: Checksum, h: FileHeader, recs: seq<JournalRecord>, cut: nat)
    requires AllEncodable(recs) && |recs| <= U64_MAX
    requires HEADER_LEN <= cut <= |Journal(crc, h, recs)| && cut <= U64_MAX
    ensures var k := WholeFrames(crc, recs, 0, cut - HEADER_LEN);
            var o := ReplayBytes(crc, Journal(crc, h, recs)[..cut]);
            && o.Ok? && o.value.header == h
            && o.value.records == Numbered(recs[..k], 0)
            && o.value.validBytes == |Journal(crc, h, recs[..k])| <= cut
            && StopsAt(o.value.stop, o.value.validBytes == cut)
  {
    hide Frame, EncodeFrame, EncodeHeader, DecodeHeader, Scan, EncodeAll, Numbered, WholeFrames;
    var j, e := Journal(crc, h, recs), EncodeAll(crc, recs, 0);
    var n := cut - HEADER_LEN;
    assert j[..cut] == EncodeHeader(crc, h) + e[..n];
    HeaderRoundTrip(crc, h, e[..n]);
    assert j[..cut][HEADER_LEN..] == e[..n];
    ScanPrefix(crc, recs, 0, n);
  }

  /** A whole journal replays to all its records and a clean end of file. */
  lemma ReplayJournal(crc: Checksum, h: FileHeader, recs: seq<JournalRecord>)
    requires AllEncodable(recs) && |recs| <= U64_MAX && |Journal(crc, h, recs)| <= U64_MAX
    ensures ReplayBytes(crc, Journal(crc, h, recs))
            == Ok(ReplayOutcome(h, Numbered(recs, 0), |Journal(crc, h, recs)|, CleanEof))
  {
    hide Frame, EncodeFrame, EncodeHeader, ReplayBytes, EncodeAll, Numbered, WholeFrames;
    var j := Journal(crc, h, recs);
    ReplayPrefixExact(crc, h, recs, |j|);
    WholeFramesFit(crc, recs, 0, |j| - HEADER_LEN, |recs|);
    assert j[..|j|] == j && recs[..|recs|] == recs;
  }

  /** A cut inside the header is fatal. */
  lemma ReplayHeaderCut(crc: Checksum, h: FileHeader, recs: seq<JournalRecord>, cut: nat)
    requires AllEncodable(recs) && |recs| <= U64_MAX && cut < HEADER_LEN
    ensures ReplayBytes(crc, Journal(crc, h, recs)[..cut]) == Err(Truncated(HEADER_LEN, cut))
  {
  }

  // ----- replay of arbitrary bytes -----

  function RecordsOf(s: seq<FramedRecord>): (r: seq<JournalRecord>)
    ensures |r| == |s|
    ensures forall i :: 0 <= i < |s| ==> r[i] == s[i].record
  {
    seq(|s|, i requires 0 <= i < |s| => s[i].record)
  }

  lemma DecodedFrame(crc: Checksum, b: seq<Byte>)
    requires DecodeFrame(crc, b).Ok?
    ensures var (f, n) := DecodeFrame(crc, b).value;
            && MIN_FRAME_LEN <= n <= |b| && Encodable(f.record)
            && b[..n] == Frame(crc, f.sequence, f.record)
  {
    FrameCanonical(crc, b);
  }

  ghost predicate KeptIsEncoded(crc: Checksum, b: seq<Byte>, expected: nat, s: Scanned)
  {
    var recs := RecordsOf(s.records);
    && AllEncodable(recs) && expected + |recs| <= U64_MAX && s.bytes <= |b|
    && s.records == Numbered(recs, expected)
    && b[..s.bytes] == EncodeAll(crc, recs, expected)
    && (s.stop == CleanEof ==> s.bytes == |b|)
  }

  lemma ScanCanonicalStep(crc: Checksum, b: seq<Byte>, expected: nat)
    requires MIN_FRAME_LEN * expected + |b| <= U64_MAX && b != []
    requires DecodeFrame(crc, b).Ok? && DecodeFrame(crc, b).value.0.sequence == expected
    requires MIN_FRAME_LEN <= DecodeFrame(crc, b).value.1 <= |b|
    requires var n := DecodeFrame(crc, b).value.1;
             KeptIsEncoded(crc, b[n..], expected + 1, Scan(crc, b[n..], expected + 1))
    ensures KeptIsEncoded(crc, b, expected, Scan(crc, b, expected))
  {
    hide Frame, EncodeFrame, DecodeFrame, PayloadOf, EncodeAll, Numbered;
    DecodedFrame(crc, b);
    var (f, n) := DecodeFrame(crc, b).value;
    var s, rest := Scan(crc, b, expected), Scan(crc, b[n..], expected + 1);
    var tail := RecordsOf(rest.records);
    assert RecordsOf(s.records) == [f.record] + tail;
    EncodeCons(crc, f.record, tail, expected);
    assert b[..s.bytes] == b[..n] + b[n..][..rest.bytes];
  }

  lemma EncodeCons(crc: Checksum, r: JournalRecord, tail: seq<JournalRecord>, from: nat)
    requires Encodable(r) && AllEncodable(tail) && from + 1 + |tail| <= U64_MAX
    ensures AllEncodable([r] + tail)
    ensures Numbered([r] + tail, from) == [FramedRecord(from, r)] + Numbered(tail, from + 1)
    ensures EncodeAll(crc, [r] + tail, from) == Frame(crc, from, r) + EncodeAll(crc, tail, from + 1)
  {
    hide Frame, Encodable, Numbered;
    var all := [r] + tail;
    assert all[0] == r && all[1..] == tail;
    assert Numbered(all, from) == [FramedRecord(from, r)] + Numbered(tail, from + 1);
  }

  /** A scan that does not end cleanly leaves something behind. */
  lemma {:induction false} ScanShort(crc: Checksum, b: seq<Byte>, expected: nat)
    requires MIN_FRAME_LEN * expected + |b| <= U64_MAX
    ensures Scan(crc, b, expected).stop == CleanEof <==> Scan(crc, b, expected).bytes == |b|
    decreases |b|
  {
    hide Frame, EncodeFrame, DecodeFrame, PayloadOf;
    if b != [] && DecodeFrame(crc, b).Ok? && DecodeFrame(crc, b).value.0.sequence == expected {
      var (f, n) := DecodeFrame(crc, b).value;
      DecodedFrame(crc, b);
      ScanShort(crc, b[n..], expected + 1);
    }
  }

  /** Repair changes a file exactly when its replay does not end cleanly. */
  lemma RepairChanges(crc: Checksum, b: seq<Byte>)
    requires |b| <= U64_MAX && ReplayBytes(crc, b).Ok?
    ensures Repair(crc, b) == b <==> ReplayBytes(crc, b).value.stop == CleanEof
  {
    hide Scan, DecodeHeader;
    HeaderCanonical(crc, b);
    ScanShort(crc, b[HEADER_LEN..], 0);
  }

  /** The bytes a scan keeps are the encoding of the contiguous records it returns. */
  lemma {:induction false} ScanCanonical(crc: Checksum, b: seq<Byte>, expected: nat)
    requires MIN_FRAME_LEN * expected + |b| <= U64_MAX
    ensures KeptIsEncoded(crc, b, expected, Scan(crc, b, expected))
    decreases |b|
  {
    hide Frame, EncodeFrame, DecodeFrame, PayloadOf;
    if b != [] && DecodeFrame(crc, b).Ok? && DecodeFrame(crc, b).value.0.sequence == expected {
      var (f, n) := DecodeFrame(crc, b).value;
      DecodedFrame(crc, b);
      ScanCanonical(crc, b[n..], expected + 1);
      ScanCanonicalStep(crc, b, expected);
    }
  }

  /** Whatever replays, the part of it that is kept is a well-formed journal of what was returned. */
  lemma ReplayCanonical(crc: Checksum, b: seq<Byte>)
    requires |b| <= U64_MAX && ReplayBytes(crc, b).Ok?
    ensures var o := ReplayBytes(crc, b).value;
            var recs := RecordsOf(o.records);
            && AllEncodable(recs) && |recs| <= U64_MAX && o.records == Numbered(recs, 0)
            && o.validBytes <= |b| && b[..o.validBytes] == Journal(crc, o.header, recs)
            && Repair(crc, b) == Journal(crc, o.header, recs)
  {
    hide Frame, EncodeFrame, EncodeHeader, DecodeHeader, Scan, EncodeAll, Numbered;
    var o := ReplayBytes(crc, b).value;
    HeaderCanonical(crc, b);
    ScanCanonical(crc, b[HEADER_LEN..], 0);
    assert b[..o.validBytes] == b[..HEADER_LEN] + b[HEADER_LEN..][..o.validBytes - HEADER_LEN];
    if o.stop == CleanEof {
      assert b[..|b|] == b;
    }
  }

  /** Replaying a repaired file returns the same records, ends cleanly and repairs nothing more. */
  lemma RepairIdempotent(crc: Checksum, b: seq<Byte>)
    requires |b| <= U64_MAX && ReplayBytes(crc, b).Ok?
    ensures var fixed := Repair(crc, b);
            && |fixed| <= |b|
            && ReplayBytes(crc, fixed) == Ok(ReplayBytes(crc, b).value.(stop := CleanEof))
            && Repair(crc, fixed) == fixed
  {
    hide Frame, EncodeFrame, EncodeHeader, ReplayBytes, EncodeAll, Numbered;
    ReplayCanonical(crc, b);
    var o := ReplayBytes(crc, b).value;
    ReplayJournal(crc, o.header, RecordsOf(o.records));
  }

  /** After repair, appending the next-numbered frame extends replay by exactly that record. */
  lemma AppendExtends(crc: Checksum, b: seq<Byte>, r: JournalRecord)
    requires |b| <= U64_MAX && ReplayBytes(crc, b).Ok? && Encodable(r)
    requires var next := |ReplayBytes(crc, b).value.records|;
             next < U64_MAX && |Repair(crc, b)| + |Frame(crc, next, r)| <= U64_MAX
    ensures var o := ReplayBytes(crc, b).value;
            var grown := Repair(crc, b) + Frame(crc, |o.records|, r);
            ReplayBytes(crc, grown)
            == Ok(ReplayOutcome(o.header, o.records + [FramedRecord(|o.records|, r)], |grown|, CleanEof))
  {
    hide Frame, EncodeFrame, EncodeHeader, ReplayBytes, EncodeAll, Journal, Repair, Numbered;
    ReplayCanonical(crc, b);
    var o := ReplayBytes(crc, b).value;
    var recs := RecordsOf(o.records);
    JournalSnoc(crc, o.header, recs, r);
    ReplayJournal(crc, o.header, recs + [r]);
    assert Numbered(recs + [r], 0) == o.records + [FramedRecord(|recs|, r)];
  }

  lemma JournalSnoc(crc: Checksum, h: FileHeader, recs: seq<JournalRecord>, r: JournalRecord)
    requires AllEncodable(recs) && Encodable(r) && |recs| < U64_MAX
    ensures AllEncodable(recs + [r])
    ensures Journal(crc, h, recs + [r]) == Journal(crc, h, recs) + Frame(crc, |recs|, r)
  {
    hide Frame, EncodeHeader, EncodeAll, Encodable;
    EncodeAllConcat(crc, recs, [r], 0);
    EncodeOne(crc, r, |recs|);
    ThreeParts(EncodeHeader(crc, h), EncodeAll(crc, recs, 0), Frame(crc, |recs|, r));
  }

  lemma ThreeParts(a: seq<Byte>, b: seq<Byte>, c: seq<Byte>)
    ensures a + (b + c) == a + b + c
  {
  }

  lemma EncodeOne(crc: Checksum, r: JournalRecord, from: nat)
    requires Encodable(r) && from < U64_MAX
    ensures EncodeAll(crc, [r], from) == Frame(crc, from, r)
  {
    hide Frame;
    assert [r][1..] == [];
  }

  // ----- the reading loop -----

  datatype ReadEvent = Chunk(limit: nat) | Interrupted | Failed

  /**
   A file being read. `schedule` says how the next reads behave; once it is exhausted every
   read delivers as much as was asked for.
   */
  class Reader {
    const contents: seq<Byte>
    var position: nat
    var schedule: seq<ReadEvent>

    ghost predicate Valid()
      reads this
    {
      position <= |contents|
    }

    ghost function Remaining(): seq<Byte>
      requires Valid()
      reads this
    {
      contents[position..]
    }

    constructor (bytes: seq<Byte>, events: seq<ReadEvent>)
      ensures Valid() && contents == bytes && position == 0 && schedule == events
    {
      contents := bytes;
      position := 0;
      schedule := events;
    }

    /** One `read`: at least one byte unless the buffer is empty or the file is at its end. */
    method Read(buffer: array<Byte>, from: nat) returns (event: ReadEvent, n: nat)
      requires Valid() && from <= buffer.Length
      modifies this, buffer
      ensures Valid() && old(position) <= position && position - old(position) == n
      ensures schedule == if old(schedule) == [] then [] else old(schedule)[1..]
      ensures event == Failed ==> Failed in old(schedule)
      ensures event != Failed ==> forall e :: e in schedule ==> e in old(schedule)
      ensures n <= buffer.Length - from
      ensures event.Chunk? && n == 0 ==> from == buffer.Length || position == |contents|
      ensures !event.Chunk? ==> n == 0 && old(schedule) != []
      ensures forall j :: 0 <= j < from ==> buffer[j] == old(buffer[j])
      ensures forall j :: from <= j < from + n ==> buffer[j] == contents[old(position) + (j - from)]
    {
      var room := Min(buffer.Length - from, |contents| - position);
      event, n := Chunk(room), room;
      if schedule != [] {
        event, schedule := schedule[0], schedule[1..];
        n := if event.Chunk? then Min(room, Max(1, event.limit)) else 0;
      }
      forall j | from <= j < from + n {
        buffer[j] := contents[position + (j - from)];
      }
      position := position + n;
    }
  }

  /** Fills `destination` as far as the file reaches, across short and interrupted reads. */
  method ReadUpTo(reader: Reader, destination: array<Byte>) returns (r: Result<nat, ReplayError>)
    requires reader.Valid()
    modifies reader, destination
    ensures reader.Valid()
    ensures forall e :: e in reader.schedule ==> e in old(reader.schedule)
    ensures r.Err? ==> r.error == ReadFailed && Failed in old(reader.schedule)
    ensures r.Ok? ==> r.value == Min(destination.Length, |old(reader.Remaining())|)
    ensures r.Ok? ==> destination[..r.value] == old(reader.Remaining())[..r.value]
    ensures r.Ok? ==> reader.Remaining() == old(reader.Remaining())[r.value..]
  {
    var filled: nat := 0;
    ghost var start := reader.position;
    while filled < destination.Length
      invariant reader.Valid() && filled <= destination.Length
      invariant reader.position == start + filled && start == old(reader.position)
      invariant forall e :: e in reader.schedule ==> e in old(reader.schedule)
      invariant forall j :: 0 <= j < filled ==> destination[j] == reader.contents[start + j]
      decreases |reader.schedule| + destination.Length - filled, |reader.schedule|
    {
      var event, n := reader.Read(destination, filled);
      if event == Failed {
        return Err(ReadFailed);
      }
      if event.Chunk? && n == 0 {
        break;
      }
      filled := filled + n;
    }
    r := Ok(filled);
  }

  // ----- the loop itself -----

  /** The number of bytes after the prefix that the frame at the head of `b` claims. */
  function SuffixLength(prefix: seq<Byte>): nat
    requires |prefix| == RECORD_PREFIX_LEN
  {
    ReadU16(prefix[9..11]) + CHECKSUM_LEN
  }

  /** A decoder that sees only the claimed frame reports what one seeing the whole rest would. */
  lemma DecodeLocal(crc: Checksum, b: seq<Byte>)
    requires |b| >= RECORD_PREFIX_LEN
    ensures var needed := RECORD_PREFIX_LEN + SuffixLength(b[..RECORD_PREFIX_LEN]);
            if |b| < needed then DecodeFrame(crc, b) == Err(Truncated(needed, |b|))
            else
              && DecodeFrame(crc, b) == DecodeFrame(crc, b[..needed])
              && (DecodeFrame(crc, b).Ok? ==> DecodeFrame(crc, b).value.1 == needed)
  {
    hide ReadU16, ReadU32, ReadU64, DecodePayload;
    var needed := RECORD_PREFIX_LEN + SuffixLength(b[..RECORD_PREFIX_LEN]);
    assert b[..RECORD_PREFIX_LEN][9..11] == b[9..11];
    if |b| >= needed {
      var c := b[..needed];
      assert c[0..8] == b[0..8] && c[9..11] == b[9..11] && c[8] == b[8];
      assert c[needed - 4..needed] == b[needed - 4..needed] && c[..needed - 4] == b[..needed - 4];
      assert c[RECORD_PREFIX_LEN..needed - 4] == b[RECORD_PREFIX_LEN..needed - 4];
    }
  }

  /** The scan of `whole` is `records` followed by the scan of what is left to read. */
  ghost predicate ScanSoFar(crc: Checksum, whole: seq<Byte>, records: seq<FramedRecord>, consumed: nat, left: seq<Byte>)
  {
    && consumed + |left| == |whole| <= U64_MAX && MIN_FRAME_LEN * |records| <= consumed
    && var tail := Scan(crc, left, |records|);
       Scan(crc, whole, 0) == Scanned(records + tail.records, consumed + tail.bytes, tail.stop)
  }

  lemma ScanStops(crc: Checksum, whole: seq<Byte>, records: seq<FramedRecord>, consumed: nat, left: seq<Byte>)
    requires ScanSoFar(crc, whole, records, consumed, left)
    ensures left == [] ==> Scan(crc, whole, 0) == Scanned(records, consumed, CleanEof)
    ensures left != [] && DecodeFrame(crc, left).Err? ==>
              Scan(crc, whole, 0) == Scanned(records, consumed, DamagedTail(DecodeFrame(crc, left).error))
    ensures left != [] && DecodeFrame(crc, left).Ok? && DecodeFrame(crc, left).value.0.sequence != |records| ==>
              Scan(crc, whole, 0)
              == Scanned(records, consumed, SequenceGap(|records|, DecodeFrame(crc, left).value.0.sequence))
  {
    hide DecodeFrame;
    var tail := Scan(crc, left, |records|);
    assert tail.records == [] ==> records + tail.records == records;
  }

  lemma ScanAdvances(crc: Checksum, whole: seq<Byte>, records: seq<FramedRecord>, consumed: nat, left: seq<Byte>)
    requires ScanSoFar(crc, whole, records, consumed, left) && left != []
    requires DecodeFrame(crc, left).Ok? && DecodeFrame(crc, left).value.0.sequence == |records|
    ensures var (f, n) := DecodeFrame(crc, left).value;
            0 < n <= |left| && ScanSoFar(crc, whole, records + [f], consumed + n, left[n..])
  {
    hide DecodeFrame, Frame;
    DecodedFrame(crc, left);
    var (f, n) := DecodeFrame(crc, left).value;
    var rest := Scan(crc, left[n..], |records| + 1);
    assert Scan(crc, left, |records|) == Scanned([f] + rest.records, n + rest.bytes, rest.stop);
    assert records + ([f] + rest.records) == records + [f] + rest.records;
  }

  method ReplayReader(crc: Checksum, reader: Reader) returns (r: Result<ReplayOutcome, ReplayError>)
    requires reader.Valid() && |reader.Remaining()| <= U64_MAX
    modifies reader
    ensures r == Err(ReadFailed) ==> Failed in old(reader.schedule)
    ensures r.Ok? ==> ReplayBytes(crc, old(reader.Remaining())) == Ok(r.value)
    ensures r.Err? && r.error.BadHeader? ==> ReplayBytes(crc, old(reader.Remaining())) == Err(r.error.error)
  {
    hide Scan, DecodeFrame;
    ghost var all := reader.Remaining();
    var headerBytes := new Byte[HEADER_LEN];
    var headerRead := ReadUpTo(reader, headerBytes);
    if headerRead.Err? { return Err(headerRead.error); }
    DecodeHeaderLocal(crc, all);
    var header := DecodeHeader(crc, headerBytes[..headerRead.value]);
    if header.Err? { return Err(BadHeader(header.error)); }
    ghost var whole := all[HEADER_LEN..];
    var records: seq<FramedRecord>, consumed: nat := [], 0;
    while true
      invariant reader.Valid() && ScanSoFar(crc, whole, records, consumed, reader.Remaining())
      invariant forall e :: e in reader.schedule ==> e in old(reader.schedule)
      decreases |reader.Remaining()|
    {
      ghost var left := reader.Remaining();
      ScanStops(crc, whole, records, consumed, left);
      var next := ReadFrame(crc, reader);
      if next.Err? { return Err(next.error); }
      match next.value {
        case AtEnd => return Ok(ReplayOutcome(header.value, records, HEADER_LEN + consumed, CleanEof));
        case Unusable(e) =>
          return Ok(ReplayOutcome(header.value, records, HEADER_LEN + consumed, DamagedTail(e)));
        case Whole(f, n) =>
          if f.sequence != |records| {
            return Ok(ReplayOutcome(header.value, records, HEADER_LEN + consumed,
                                    SequenceGap(|records|, f.sequence)));
          }
          ScanAdvances(crc, whole, records, consumed, left);
          records, consumed := records + [f], consumed + n;
      }
    }
  }

  datatype NextFrame = AtEnd | Unusable(error: FormatError) | Whole(frame: FramedRecord, length: nat)

  /** One turn of the loop: read the prefix, size the frame from it, read the rest, decode. */
  method ReadFrame(crc: Checksum, reader: Reader) returns (r: Result<NextFrame, ReplayError>)
    requires reader.Valid()
    modifies reader
    ensures reader.Valid()
    ensures forall e :: e in reader.schedule ==> e in old(reader.schedule)
    ensures r.Err? ==> r.error == ReadFailed && Failed in old(reader.schedule)
    ensures r.Ok? ==>
              var left := old(reader.Remaining());
              if left == [] then r.value == AtEnd
              else
                match DecodeFrame(crc, left)
                case Err(e) => r.value == Unusable(e)
                case Ok((f, n)) => r.value == Whole(f, n) && n <= |left| && reader.Remaining() == left[n..]
  {
    hide DecodeFrame, SuffixLength;
    ghost var left := reader.Remaining();
    var prefix := new Byte[RECORD_PREFIX_LEN];
    var prefixRead := ReadUpTo(reader, prefix);
    if prefixRead.Err? { return Err(prefixRead.error); }
    if prefixRead.value == 0 {
      return Ok(AtEnd);
    }
    ShortPrefix(crc, left);
    if prefixRead.value < RECORD_PREFIX_LEN {
      return Ok(Unusable(Truncated(RECORD_PREFIX_LEN, prefixRead.value)));
    }
    var head := prefix[..];
    assert head == left[..RECORD_PREFIX_LEN];
    ghost var rest := left[RECORD_PREFIX_LEN..];
    var suffixLen := SuffixLength(head);
    FrameInside(crc, left, suffixLen);
    var suffix := new Byte[suffixLen];
    var suffixRead := ReadUpTo(reader, suffix);
    if suffixRead.Err? { return Err(suffixRead.error); }
    if suffixRead.value < suffixLen {
      return Ok(Unusable(Truncated(RECORD_PREFIX_LEN + suffixLen, RECORD_PREFIX_LEN + suffixRead.value)));
    }
    assert suffix[..] == rest[..suffixLen];
    var frame := head + suffix[..];
    match DecodeFrame(crc, frame) {
      case Err(e) => r := Ok(Unusable(e));
      case Ok((f, n)) => r := Ok(Whole(f, n));
    }
  }

  /** A prefix and the suffix it announces are all that decoding looks at. */
  lemma FrameInside(crc: Checksum, left: seq<Byte>, suffixLen: nat)
    requires |left| >= RECORD_PREFIX_LEN && suffixLen == SuffixLength(left[..RECORD_PREFIX_LEN])
    ensures var rest, needed := left[RECORD_PREFIX_LEN..], RECORD_PREFIX_LEN + suffixLen;
            if |rest| < suffixLen then DecodeFrame(crc, left) == Err(Truncated(needed, |left|))
            else
              && DecodeFrame(crc, left) == DecodeFrame(crc, left[..RECORD_PREFIX_LEN] + rest[..suffixLen])
              && rest[suffixLen..] == left[needed..]
              && (DecodeFrame(crc, left).Ok? ==> DecodeFrame(crc, left).value.1 == needed)
  {
    hide DecodeFrame, SuffixLength;
    DecodeLocal(crc, left);
    var rest, needed := left[RECORD_PREFIX_LEN..], RECORD_PREFIX_LEN + suffixLen;
    if |rest| >= suffixLen {
      assert left[..RECORD_PREFIX_LEN] + rest[..suffixLen] == left[..needed];
      assert rest[suffixLen..] == left[needed..];
    }
  }

  lemma ShortPrefix(crc: Checksum, b: seq<Byte>)
    ensures |b| < RECORD_PREFIX_LEN ==> DecodeFrame(crc, b) == Err(Truncated(RECORD_PREFIX_LEN, |b|))
  {
  }

  lemma DecodeHeaderLocal(crc: Checksum, b: seq<Byte>)
    ensures DecodeHeader(crc, b) == DecodeHeader(crc, b[..Min(|b|, HEADER_LEN)])
  {
    hide ReadU16, ReadU32, ReadU64;
    if |b| >= HEADER_LEN {
      var c := b[..HEADER_LEN];
      assert c[0..4] == b[0..4] && c[4..6] == b[4..6] && c[6..8] == b[6..8] && c[8..24] == b[8..24];
      assert c[24..32] == b[24..32] && c[32..36] == b[32..36] && c[36..68] == b[36..68];
      assert c[68..72] == b[68..72] && c[..68] == b[..68];
    } else {
      assert b[..|b|] == b;
    }
  }
}
