/**
 Version 1 of the recovery journal: the 72-byte file header and the record frames.

 The checksum is a parameter. Both codecs are shown to be bijections onto their valid
 encodings: decoding what was encoded, whatever follows it, gives the value back, and whatever
 decodes re-encodes to exactly the bytes that were consumed.
 */
module JournalFormat {
  import opened Base
  import opened LittleEndian

  const MAGIC: seq<Byte> := [68, 80, 74, 49]
  const FORMAT_VERSION: nat := 1
  const SUPPORTED_FLAGS: nat := 0
  const HEADER_LEN: nat := 72
  const HEADER_CHECKSUM_OFFSET: nat := 68
  const RECORD_PREFIX_LEN: nat := 11
  const CHECKSUM_LEN: nat := 4
  const MAX_PAYLOAD_LEN: nat := 65_535

  const BLOCK_COMPLETE_KIND: Byte := 1
  const CHECKPOINT_KIND: Byte := 2
  const IDENTITY_UPDATE_KIND: Byte := 3
  const TRUNCATE_KIND: Byte := 4
  const SEALED_KIND: Byte := 5

  type TransferId = d: seq<Byte> | |d| == 16 witness seq(16, _ => 0)

  datatype FileHeader =
    FileHeader(transferId: TransferId, totalLength: U64, blockSize: U32, validatorHash: Digest)

  datatype JournalRecord =
    | BlockComplete(offset: U64, len: U32, blake3: Digest)
    | Checkpoint(coveredBytes: U64, wallClock: U64)
    | IdentityUpdate(cbor: seq<Byte>)
    | Truncate(newLength: U64)
    | Sealed(finalBlake3: Digest)

  datatype FramedRecord = FramedRecord(sequence: U64, record: JournalRecord)

  datatype FormatError =
    | Truncated(needed: nat, actual: nat)
    | InvalidMagic(magic: seq<Byte>)
    | HeaderChecksumMismatch(stored: U32, computed: U32)
    | UnsupportedVersion(found: nat, supported: nat)
    | UnsupportedFlags(found: nat)
    | RecordChecksumMismatch(sequence: U64, stored: U32, computed: U32)
    | UnknownRecordKind(kind: Byte)
    | InvalidPayloadLength(kind: Byte, expected: nat, actual: nat)
    | PayloadTooLarge(actual: nat, maximum: nat)

  // ----- header -----

  function HeaderBody(h: FileHeader): (b: seq<Byte>)
    ensures |b| == HEADER_CHECKSUM_OFFSET
  {
    MAGIC + ToLE(FORMAT_VERSION, 2) + ToLE(SUPPORTED_FLAGS, 2) + h.transferId
    + ToLE(h.totalLength, 8) + ToLE(h.blockSize, 4) + h.validatorHash
  }

  function EncodeHeader(crc: Checksum, h: FileHeader): (b: seq<Byte>)
    ensures |b| == HEADER_LEN
  {
    HeaderBody(h) + ToLE(crc(HeaderBody(h)), 4)
  }

  function DecodeHeader(crc: Checksum, b: seq<Byte>): Result<FileHeader, FormatError>
  {
    if |b| < HEADER_LEN then Err(Truncated(HEADER_LEN, |b|))
    else if b[0..4] != MAGIC then Err(InvalidMagic(b[0..4]))
    else
      var stored, computed := ReadU32(b[68..72]), crc(b[..68]);
      if stored != computed then Err(HeaderChecksumMismatch(stored, computed))
      else
        var version, flags := ReadU16(b[4..6]), ReadU16(b[6..8]);
        if version != FORMAT_VERSION then Err(UnsupportedVersion(version, FORMAT_VERSION))
        else if flags != SUPPORTED_FLAGS then Err(UnsupportedFlags(flags))
        else Ok(FileHeader(b[8..24], ReadU64(b[24..32]), ReadU32(b[32..36]), b[36..68]))
  }

  lemma HeaderFields(h: FileHeader)
    ensures var b := HeaderBody(h);
            && b[0..4] == MAGIC && b[4..6] == ToLE(FORMAT_VERSION, 2) && b[6..8] == ToLE(SUPPORTED_FLAGS, 2)
            && b[8..24] == h.transferId && b[24..32] == ToLE(h.totalLength, 8)
            && b[32..36] == ToLE(h.blockSize, 4) && b[36..68] == h.validatorHash
  {
  }

  lemma SliceOfPrefix(a: seq<Byte>, suffix: seq<Byte>, i: nat, j: nat)
    requires i <= j <= |a|
    ensures (a + suffix)[i..j] == a[i..j]
  {
  }

  lemma HeaderRoundTrip(crc: Checksum, h: FileHeader, suffix: seq<Byte>)
    ensures DecodeHeader(crc, EncodeHeader(crc, h) + suffix) == Ok(h)
  {
    var body := HeaderBody(h);
    var rest := ToLE(crc(body), 4) + suffix;
    var b := EncodeHeader(crc, h) + suffix;
    assert b == body + rest;
    HeaderFields(h);
    SliceOfPrefix(body, rest, 0, 4);
    SliceOfPrefix(body, rest, 4, 6);
    SliceOfPrefix(body, rest, 6, 8);
    SliceOfPrefix(body, rest, 8, 24);
    SliceOfPrefix(body, rest, 24, 32);
    SliceOfPrefix(body, rest, 32, 36);
    SliceOfPrefix(body, rest, 36, 68);
    assert b[..68] == body && b[68..72] == ToLE(crc(body), 4);
    ReadWritten16(FORMAT_VERSION);
    ReadWritten16(SUPPORTED_FLAGS);
    ReadWritten32(crc(body));
    ReadWritten32(h.blockSize);
    ReadWritten64(h.totalLength);
  }

  lemma HeaderCanonical(crc: Checksum, b: seq<Byte>)
    requires DecodeHeader(crc, b).Ok?
    ensures |b| >= HEADER_LEN && b[..HEADER_LEN] == EncodeHeader(crc, DecodeHeader(crc, b).value)
  {
    var h := DecodeHeader(crc, b).value;
    assert b[..68] == b[0..4] + b[4..6] + b[6..8] + b[8..24] + b[24..32] + b[32..36] + b[36..68];
    assert b[..68] == HeaderBody(h);
    assert b[..72] == b[..68] + b[68..72];
  }

  // ----- payloads -----

  function KindOf(r: JournalRecord): Byte
  {
    match r
    case BlockComplete(_, _, _) => BLOCK_COMPLETE_KIND
    case Checkpoint(_, _) => CHECKPOINT_KIND
    case IdentityUpdate(_) => IDENTITY_UPDATE_KIND
    case Truncate(_) => TRUNCATE_KIND
    case Sealed(_) => SEALED_KIND
  }

  function PayloadOf(r: JournalRecord): seq<Byte>
  {
    match r
    case BlockComplete(offset, len, blake3) => ToLE(offset, 8) + ToLE(len, 4) + blake3
    case Checkpoint(covered, clock) => ToLE(covered, 8) + ToLE(clock, 8)
    case IdentityUpdate(cbor) => cbor
    case Truncate(newLength) => ToLE(newLength, 8)
    case Sealed(digest) => digest
  }

  function RequiredLength(kind: Byte): Option<nat>
  {
    if kind == BLOCK_COMPLETE_KIND then Some(44)
    else if kind == CHECKPOINT_KIND then Some(16)
    else if kind == TRUNCATE_KIND then Some(8)
    else if kind == SEALED_KIND then Some(32)
    else None
  }

  function DecodePayload(kind: Byte, p: seq<Byte>): Result<JournalRecord, FormatError>
  {
    if kind == IDENTITY_UPDATE_KIND then Ok(IdentityUpdate(p))
    else if RequiredLength(kind).None? then Err(UnknownRecordKind(kind))
    else if |p| != RequiredLength(kind).value then
      Err(InvalidPayloadLength(kind, RequiredLength(kind).value, |p|))
    else if kind == BLOCK_COMPLETE_KIND then
      Ok(BlockComplete(ReadU64(p[0..8]), ReadU32(p[8..12]), p[12..44]))
    else if kind == CHECKPOINT_KIND then Ok(Checkpoint(ReadU64(p[0..8]), ReadU64(p[8..16])))
    else if kind == TRUNCATE_KIND then Ok(Truncate(ReadU64(p)))
    else Ok(Sealed(p))
  }

  lemma PayloadRoundTrip(r: JournalRecord)
    ensures DecodePayload(KindOf(r), PayloadOf(r)) == Ok(r)
  {
    var p := PayloadOf(r);
    match r
    case BlockComplete(offset, len, blake3) =>
      assert p[0..8] == ToLE(offset, 8) && p[8..12] == ToLE(len, 4) && p[12..44] == blake3;
      ReadWritten64(offset);
      ReadWritten32(len);
    case Checkpoint(covered, clock) =>
      assert p[0..8] == ToLE(covered, 8) && p[8..16] == ToLE(clock, 8);
      ReadWritten64(covered);
      ReadWritten64(clock);
    case IdentityUpdate(_) =>
    case Truncate(newLength) => ReadWritten64(newLength);
    case Sealed(_) =>
  }

  lemma PayloadCanonical(kind: Byte, p: seq<Byte>)
    requires DecodePayload(kind, p).Ok?
    ensures KindOf(DecodePayload(kind, p).value) == kind && PayloadOf(DecodePayload(kind, p).value) == p
  {
    if kind == BLOCK_COMPLETE_KIND {
      assert p == p[0..8] + p[8..12] + p[12..44];
    } else if kind == CHECKPOINT_KIND {
      assert p == p[0..8] + p[8..16];
    }
  }

  // ----- frames -----

  /** Everything the frame's checksum protects. */
  function FrameBody(sequence: U64, kind: Byte, payload: seq<Byte>): (b: seq<Byte>)
    ensures |b| == RECORD_PREFIX_LEN + |payload|
  {
    ToLE(sequence, 8) + [kind] + ToLE(|payload|, 2) + payload
  }

  function Sealing(crc: Checksum, body: seq<Byte>): seq<Byte>
  {
    body + ToLE(crc(body), 4)
  }

  function EncodeFrame(crc: Checksum, f: FramedRecord): Result<seq<Byte>, FormatError>
  {
    var payload := PayloadOf(f.record);
    if |payload| > MAX_PAYLOAD_LEN then Err(PayloadTooLarge(|payload|, MAX_PAYLOAD_LEN))
    else Ok(Sealing(crc, FrameBody(f.sequence, KindOf(f.record), payload)))
  }

  function DecodeFrame(crc: Checksum, b: seq<Byte>): Result<(FramedRecord, nat), FormatError>
  {
    if |b| < RECORD_PREFIX_LEN then Err(Truncated(RECORD_PREFIX_LEN, |b|))
    else
      var sequence, kind, checksumOffset := ReadU64(b[0..8]), b[8], RECORD_PREFIX_LEN + ReadU16(b[9..11]);
      if |b| < checksumOffset + CHECKSUM_LEN then Err(Truncated(checksumOffset + CHECKSUM_LEN, |b|))
      else
        var stored := ReadU32(b[checksumOffset..checksumOffset + 4]);
        var computed := crc(b[..checksumOffset]);
        if stored != computed then Err(RecordChecksumMismatch(sequence, stored, computed))
        else
          match DecodePayload(kind, b[RECORD_PREFIX_LEN..checksumOffset])
          case Err(e) => Err(e)
          case Ok(record) => Ok((FramedRecord(sequence, record), checksumOffset + CHECKSUM_LEN))
  }

  lemma FrameFields(sequence: U64, kind: Byte, payload: seq<Byte>, suffix: seq<Byte>)
    requires |payload| <= MAX_PAYLOAD_LEN
    ensures var b := FrameBody(sequence, kind, payload) + suffix;
            && b[0..8] == ToLE(sequence, 8) && b[8] == kind && b[9..11] == ToLE(|payload|, 2)
            && b[11..11 + |payload|] == payload && b[..11 + |payload|] == FrameBody(sequence, kind, payload)
            && ReadU64(b[0..8]) == sequence && ReadU16(b[9..11]) == |payload|
  {
    ReadWritten64(sequence);
    ReadWritten16(|payload|);
  }

  lemma FrameRoundTrip(crc: Checksum, f: FramedRecord, suffix: seq<Byte>)
    requires EncodeFrame(crc, f).Ok?
    ensures var e := EncodeFrame(crc, f).value; DecodeFrame(crc, e + suffix) == Ok((f, |e|))
  {
    var payload := PayloadOf(f.record);
    var body := FrameBody(f.sequence, KindOf(f.record), payload);
    var b := Sealing(crc, body) + suffix;
    assert b == body + (ToLE(crc(body), 4) + suffix);
    FrameFields(f.sequence, KindOf(f.record), payload, ToLE(crc(body), 4) + suffix);
    assert b[|body|..|body| + 4] == ToLE(crc(body), 4);
    ReadWritten32(crc(body));
    PayloadRoundTrip(f.record);
  }

  lemma FrameCanonical(crc: Checksum, b: seq<Byte>)
    requires DecodeFrame(crc, b).Ok?
    ensures var (f, n) := DecodeFrame(crc, b).value; n <= |b| && EncodeFrame(crc, f) == Ok(b[..n])
  {
    var (f, n) := DecodeFrame(crc, b).value;
    var body := b[..n - 4];
    PayloadCanonical(b[8], b[11..n - 4]);
    assert body == b[0..8] + [b[8]] + b[9..11] + b[11..n - 4];
    assert body == FrameBody(f.sequence, b[8], b[11..n - 4]);
    assert b[..n] == body + b[n - 4..n];
  }

  /** A frame cut anywhere before its last byte is reported as truncated, never as corrupt. */
  lemma FrameCut(crc: Checksum, f: FramedRecord, k: nat)
    requires EncodeFrame(crc, f).Ok? && k < |EncodeFrame(crc, f).value|
    ensures DecodeFrame(crc, EncodeFrame(crc, f).value[..k]).Err?
    ensures DecodeFrame(crc, EncodeFrame(crc, f).value[..k]).error.Truncated?
  {
    var payload := PayloadOf(f.record);
    var body := FrameBody(f.sequence, KindOf(f.record), payload);
    var cut := Sealing(crc, body)[..k];
    FrameFields(f.sequence, KindOf(f.record), payload, ToLE(crc(body), 4));
    if k >= RECORD_PREFIX_LEN {
      assert cut[9..11] == Sealing(crc, body)[9..11];
    }
  }
}
