/**
 The journal on disk, byte by byte, and what damage does to it.

 `JournalFormat` shows that encoding and decoding agree. Here the layout is given in numbers, the
 checksum is shown to protect every byte before it, and a damaged record is shown to end a replay
 exactly where it stands.
 */
module JournalLayout {
  import opened Base
  import opened LittleEndian
  import opened JournalFormat
  import opened Replay

  // ----- numbers -----

  /** The value of two bytes, the lower one first. */
  function Two(b: seq<Byte>, i: nat): nat
    requires i + 2 <= |b|
  {
    var low: nat, high: nat := b[i], b[i + 1];
    low + 0x100 * high
  }

  function Four(b: seq<Byte>, i: nat): nat
    requires i + 4 <= |b|
  {
    Two(b, i) + 0x1_0000 * Two(b, i + 2)
  }

  function Eight(b: seq<Byte>, i: nat): nat
    requires i + 8 <= |b|
  {
    Four(b, i) + 0x1_0000_0000 * Four(b, i + 4)
  }

  lemma FromTwo(b: seq<Byte>, i: nat)
    requires i + 2 <= |b|
    ensures FromLE(b[i..i + 2]) == Two(b, i) == ReadU16(b[i..i + 2])
  {
    var c := b[i..i + 2];
    assert c[1..] == [b[i + 1]] && [b[i + 1]][1..] == [];
    assert FromLE([b[i + 1]]) == b[i + 1] + 256 * FromLE([b[i + 1]][1..]);
  }

  lemma Distribute(x: nat, y: nat, z: nat)
    ensures 256 * (x + y * z) == 256 * x + (256 * y) * z
  {
  }

  lemma {:induction false} FromSplit(b: seq<Byte>, k: nat)
    requires k <= |b|
    ensures FromLE(b) == FromLE(b[..k]) + Bound(k) * FromLE(b[k..])
  {
    if k == 0 {
      assert b[..0] == [] && b[0..] == b;
    } else {
      FromSplit(b[1..], k - 1);
      assert b[..k][1..] == b[1..][..k - 1] && b[1..][k - 1..] == b[k..];
      Distribute(FromLE(b[1..][..k - 1]), Bound(k - 1), FromLE(b[k..]));
    }
  }

  lemma FromFour(b: seq<Byte>, i: nat)
    requires i + 4 <= |b|
    ensures Four(b, i) == ReadU32(b[i..i + 4])
  {
    var c := b[i..i + 4];
    FromSplit(c, 2);
    assert c[..2] == b[i..i + 2] && c[2..] == b[i + 2..i + 4];
    FromTwo(b, i);
    FromTwo(b, i + 2);
    BoundValues();
  }

  lemma FromEight(b: seq<Byte>, i: nat)
    requires i + 8 <= |b|
    ensures Eight(b, i) == ReadU64(b[i..i + 8])
  {
    var c := b[i..i + 8];
    FromSplit(c, 4);
    assert c[..4] == b[i..i + 4] && c[4..] == b[i + 4..i + 8];
    FromFour(b, i);
    FromFour(b, i + 4);
    BoundValues();
  }

  // ----- the header -----

  /** Where every field of the header is, and that the checksum is that of all bytes before it. */
  lemma HeaderLayout(crc: Checksum, h: FileHeader)
    ensures var b := EncodeHeader(crc, h);
            && |b| == 72 && b[0..4] == [0x44, 0x50, 0x4A, 0x31] && Two(b, 4) == 1 && Two(b, 6) == 0
            && b[8..24] == h.transferId && Eight(b, 24) == h.totalLength && Four(b, 32) == h.blockSize
            && b[36..68] == h.validatorHash && Four(b, 68) == crc(b[..68])
  {
    hide ToLE, Two, Four, Eight;
    var body, b := HeaderBody(h), EncodeHeader(crc, h);
    HeaderFields(h);
    assert b[..68] == body && b[68..72] == ToLE(crc(body), 4);
    assert b[0..4] == body[0..4] && b[4..6] == body[4..6] && b[6..8] == body[6..8] && b[8..24] == body[8..24];
    assert b[24..32] == body[24..32] && b[32..36] == body[32..36] && b[36..68] == body[36..68];
    FromTwo(b, 4);
    FromTwo(b, 6);
    FromEight(b, 24);
    FromFour(b, 32);
    FromFour(b, 68);
    ReadWritten16(1);
    ReadWritten16(0);
    ReadWritten64(h.totalLength);
    ReadWritten32(h.blockSize);
    ReadWritten32(crc(body));
  }

  /**
   A header is accepted exactly if it is whole, has the magic, version 1 and no flags, and its checksum
   is that of the 68 bytes before it; a checksum that is not is reported with both values.
   */
  lemma HeaderChecked(crc: Checksum, b: seq<Byte>)
    ensures DecodeHeader(crc, b).Ok? <==>
            && |b| >= 72 && b[0..4] == [0x44, 0x50, 0x4A, 0x31] && Two(b, 4) == 1 && Two(b, 6) == 0
            && Four(b, 68) == crc(b[..68])
    ensures |b| >= 72 && b[0..4] == [0x44, 0x50, 0x4A, 0x31] && Four(b, 68) != crc(b[..68]) ==>
              DecodeHeader(crc, b) == Err(HeaderChecksumMismatch(Four(b, 68), crc(b[..68])))
  {
    hide FromLE, ToLE, Two, Four, Eight;
    if |b| >= 72 {
      FromTwo(b, 4);
      FromTwo(b, 6);
      FromFour(b, 68);
    }
  }

  // ----- records -----

  /** The kind byte and the payload of a record, in numbers. */
  ghost predicate PayloadLayout(r: JournalRecord, kind: Byte, p: seq<Byte>)
  {
    match r
    case BlockComplete(offset, len, blake3) =>
      kind == 1 && |p| == 44 && Eight(p, 0) == offset && Four(p, 8) == len && p[12..44] == blake3
    case Checkpoint(covered, clock) => kind == 2 && |p| == 16 && Eight(p, 0) == covered && Eight(p, 8) == clock
    case IdentityUpdate(cbor) => kind == 3 && p == cbor
    case Truncate(newLength) => kind == 4 && |p| == 8 && Eight(p, 0) == newLength
    case Sealed(digest) => kind == 5 && p == digest
  }

  lemma PayloadBytes(r: JournalRecord)
    ensures PayloadLayout(r, KindOf(r), PayloadOf(r))
  {
    hide ToLE, FromLE, Four, Eight;
    var p := PayloadOf(r);
    match r
    case BlockComplete(offset, len, _) =>
      assert p[0..8] == ToLE(offset, 8) && p[8..12] == ToLE(len, 4);
      FromEight(p, 0);
      FromFour(p, 8);
      ReadWritten64(offset);
      ReadWritten32(len);
    case Checkpoint(covered, clock) =>
      assert p[0..8] == ToLE(covered, 8) && p[8..16] == ToLE(clock, 8);
      FromEight(p, 0);
      FromEight(p, 8);
      ReadWritten64(covered);
      ReadWritten64(clock);
    case Truncate(newLength) =>
      assert p[0..8] == ToLE(newLength, 8);
      FromEight(p, 0);
      ReadWritten64(newLength);
    case _ =>
  }

  /**
   A frame: the number, the kind, the length of the payload, the payload, and the checksum of all of
   that. Only a payload of more than 65,535 bytes has none.
   */
  lemma FrameLayout(crc: Checksum, f: FramedRecord)
    ensures EncodeFrame(crc, f).Err? <==> f.record.IdentityUpdate? && |f.record.cbor| > 65_535
    ensures EncodeFrame(crc, f).Ok? ==>
              var b := EncodeFrame(crc, f).value;
              && |b| >= 15 && Eight(b, 0) == f.sequence && Two(b, 9) == |b| - 15
              && PayloadLayout(f.record, b[8], b[11..|b| - 4]) && Four(b, |b| - 4) == crc(b[..|b| - 4])
  {
    hide ToLE, FromLE, Two, Four, Eight, PayloadLayout;
    var payload := PayloadOf(f.record);
    PayloadBytes(f.record);
    if |payload| <= 65_535 {
      var body := FrameBody(f.sequence, KindOf(f.record), payload);
      var b := EncodeFrame(crc, f).value;
      FrameFields(f.sequence, KindOf(f.record), payload, ToLE(crc(body), 4));
      assert b[..|b| - 4] == body && b[|b| - 4..|b|] == ToLE(crc(body), 4) && b[11..|b| - 4] == payload;
      FromEight(b, 0);
      FromTwo(b, 9);
      FromFour(b, |b| - 4);
      ReadWritten32(crc(body));
    }
  }

  /** How long the frame at the start of `b` says it is. */
  function Claimed(b: seq<Byte>): nat
    requires |b| >= 11
  {
    15 + Two(b, 9)
  }

  /**
   A frame that is all there is refused for its checksum exactly when that is not the checksum of every
   byte before it, and the report has the number, the stored and the computed value. Whatever is
   accepted is as long as it says and has the right checksum.
   */
  lemma FrameChecked(crc: Checksum, b: seq<Byte>)
    requires |b| >= 11
    ensures |b| < Claimed(b) ==> DecodeFrame(crc, b) == Err(Truncated(Claimed(b), |b|))
    ensures |b| >= Claimed(b) ==>
              var n := Claimed(b);
              && (Four(b, n - 4) != crc(b[..n - 4]) <==>
                  DecodeFrame(crc, b) == Err(RecordChecksumMismatch(Eight(b, 0), Four(b, n - 4), crc(b[..n - 4]))))
              && (DecodeFrame(crc, b).Ok? ==> DecodeFrame(crc, b).value.1 == n && Four(b, n - 4) == crc(b[..n - 4]))
    ensures DecodeFrame(crc, b).Ok? ==> |b| >= Claimed(b)
  {
    hide ToLE, FromLE, Two, Four, Eight, DecodePayload;
    FromTwo(b, 9);
    FromEight(b, 0);
    if |b| >= Claimed(b) {
      FromFour(b, Claimed(b) - 4);
      DecodedErrors(b[8], b[11..Claimed(b) - 4]);
    }
  }

  lemma DecodedErrors(kind: Byte, p: seq<Byte>)
    ensures DecodePayload(kind, p).Err? ==> !DecodePayload(kind, p).error.RecordChecksumMismatch?
  {
  }

  // ----- damage -----

  /** Scanning whole frames and then something else: the frames, and what scanning the rest gives. */
  lemma {:induction false} ScanThrough(crc: Checksum, recs: seq<JournalRecord>, tail: seq<Byte>, from: nat)
    requires AllEncodable(recs) && from + |recs| <= U64_MAX
    requires MIN_FRAME_LEN * from + |EncodeAll(crc, recs, from)| + |tail| <= U64_MAX
    ensures MIN_FRAME_LEN * (from + |recs|) + |tail| <= U64_MAX
    ensures var e, rest := EncodeAll(crc, recs, from), Scan(crc, tail, from + |recs|);
            Scan(crc, e + tail, from) == Scanned(Numbered(recs, from) + rest.records, |e| + rest.bytes, rest.stop)
  {
    hide Frame, EncodeFrame, PayloadOf, Scan, Numbered, Encodable;
    EncodeAllLength(crc, recs, from);
    var e := EncodeAll(crc, recs, from);
    if recs == [] {
      assert e + tail == tail && Numbered(recs, from) == [];
      assert Numbered(recs, from) + Scan(crc, tail, from).records == Scan(crc, tail, from).records;
    } else {
      var f, more := Frame(crc, from, recs[0]), EncodeAll(crc, recs[1..], from + 1);
      assert e + tail == f + (more + tail);
      ScanThrough(crc, recs[1..], tail, from + 1);
      ScanOne(crc, recs[0], more + tail, from);
      EncodeCons(crc, recs[0], recs[1..], from);
      assert [recs[0]] + recs[1..] == recs;
    }
  }

  /** A frame that is all there, by its own account, with a checksum that is not that of its bytes. */
  ghost predicate Damaged(crc: Checksum, frame: seq<Byte>)
  {
    && |frame| >= 15 && |frame| == Claimed(frame)
    && Four(frame, |frame| - 4) != crc(frame[..|frame| - 4])
  }

  /**
   Damage anywhere in a record ends the replay there: the records before it are kept, the damaged one and
   all that follow are not, and the reason given is the checksum. Repair cuts the file at that record.
   */
  lemma DamageStops(crc: Checksum, h: FileHeader, recs: seq<JournalRecord>, frame: seq<Byte>, rest: seq<Byte>)
    requires AllEncodable(recs) && |recs| <= U64_MAX && Damaged(crc, frame)
    requires |Journal(crc, h, recs) + frame + rest| <= U64_MAX
    ensures var found := Journal(crc, h, recs) + frame + rest;
            var error := RecordChecksumMismatch(Eight(frame, 0), Four(frame, |frame| - 4), crc(frame[..|frame| - 4]));
            && ReplayBytes(crc, found)
               == Ok(ReplayOutcome(h, Numbered(recs, 0), |Journal(crc, h, recs)|, DamagedTail(error)))
            && Repair(crc, found) == Journal(crc, h, recs)
  {
    hide DecodeFrame, Two, Four, Eight, Journal, AllEncodable;
    assert Journal(crc, h, recs) + frame + rest == Journal(crc, h, recs) + (frame + rest);
    DamagedDecodes(crc, frame, rest);
    StopsAt(crc, h, recs, frame + rest);
  }

  /** Where the first record that cannot be read begins, the replay ends and repair cuts. */
  lemma StopsAt(crc: Checksum, h: FileHeader, recs: seq<JournalRecord>, tail: seq<Byte>)
    requires AllEncodable(recs) && |recs| <= U64_MAX && |Journal(crc, h, recs) + tail| <= U64_MAX
    ensures MIN_FRAME_LEN * |recs| + |tail| <= U64_MAX
    ensures var b, s := Journal(crc, h, recs) + tail, Scan(crc, tail, |recs|);
            s == Scanned([], 0, s.stop) && s.stop != CleanEof ==>
              && ReplayBytes(crc, b) == Ok(ReplayOutcome(h, Numbered(recs, 0), |Journal(crc, h, recs)|, s.stop))
              && Repair(crc, b) == Journal(crc, h, recs)
  {
    hide EncodeHeader, EncodeAll, DecodeHeader, Scan, Numbered, AllEncodable;
    var e := EncodeAll(crc, recs, 0);
    var b := Journal(crc, h, recs) + tail;
    assert b == EncodeHeader(crc, h) + (e + tail);
    HeaderRoundTrip(crc, h, e + tail);
    assert b[HEADER_LEN..] == e + tail;
    ScanThrough(crc, recs, tail, 0);
    assert Numbered(recs, 0) + [] == Numbered(recs, 0);
  }

  /** So does an intact record with another number than the next, for that reason. */
  lemma GapStops(crc: Checksum, h: FileHeader, recs: seq<JournalRecord>, found: U64, r: JournalRecord, rest: seq<Byte>)
    requires AllEncodable(recs) && |recs| <= U64_MAX && Encodable(r) && found != |recs|
    requires |Journal(crc, h, recs) + Frame(crc, found, r) + rest| <= U64_MAX
    ensures var b := Journal(crc, h, recs) + Frame(crc, found, r) + rest;
            && ReplayBytes(crc, b)
               == Ok(ReplayOutcome(h, Numbered(recs, 0), |Journal(crc, h, recs)|, SequenceGap(|recs|, found)))
            && Repair(crc, b) == Journal(crc, h, recs)
  {
    hide *;
    var j, f := Journal(crc, h, recs), Frame(crc, found, r);
    JoinTail(j, f, rest);
    StopsAt(crc, h, recs, f + rest);
    ScanGap(crc, found, r, rest, |recs|);
  }

  lemma JoinTail(a: seq<Byte>, b: seq<Byte>, c: seq<Byte>)
    ensures a + b + c == a + (b + c)
  {
  }

  lemma ScanGap(crc: Checksum, found: U64, r: JournalRecord, rest: seq<Byte>, expected: nat)
    requires Encodable(r) && found != expected
    requires MIN_FRAME_LEN * expected + |Frame(crc, found, r) + rest| <= U64_MAX
    ensures Scan(crc, Frame(crc, found, r) + rest, expected) == Scanned([], 0, SequenceGap(expected, found))
  {
    hide DecodeFrame, Frame, PayloadOf;
    FrameRoundTrip(crc, FramedRecord(found, r), rest);
  }

  lemma DamagedDecodes(crc: Checksum, frame: seq<Byte>, rest: seq<Byte>)
    requires Damaged(crc, frame)
    ensures DecodeFrame(crc, frame + rest)
            == Err(RecordChecksumMismatch(Eight(frame, 0), Four(frame, |frame| - 4), crc(frame[..|frame| - 4])))
  {
    hide DecodeFrame;
    var b := frame + rest;
    assert b[..|frame| - 4] == frame[..|frame| - 4];
    FrameChecked(crc, b);
  }

  /**
   The record bytes protected: change any of them, as long as the length field still reads the same and
   the checksum tells the two apart, and the frame is damaged.
   */
  lemma AnyByteProtected(crc: Checksum, f: FramedRecord, altered: seq<Byte>)
    requires EncodeFrame(crc, f).Ok?
    requires var b := EncodeFrame(crc, f).value;
             && |altered| == |b| && altered[9] == b[9] && altered[10] == b[10]
             && altered[|b| - 4..] == b[|b| - 4..] && crc(altered[..|b| - 4]) != crc(b[..|b| - 4])
    ensures Damaged(crc, altered)
  {
    hide EncodeFrame, PayloadLayout;
    var b := EncodeFrame(crc, f).value;
    FrameLayout(crc, f);
    var n := |b| - 4;
    assert altered[n..][0] == altered[n] && altered[n..][1] == altered[n + 1];
    assert altered[n..][2] == altered[n + 2] && altered[n..][3] == altered[n + 3];
    assert b[n..][0] == b[n] && b[n..][1] == b[n + 1] && b[n..][2] == b[n + 2] && b[n..][3] == b[n + 3];
  }
}
