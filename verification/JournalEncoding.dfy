/**
 The encoders as they run: the header fills a fixed buffer field by field, a frame grows a byte
 vector. Each is proved to write exactly the bytes of the codec in `JournalFormat`.
 */
module JournalEncoding {
  import opened Base
  import opened LittleEndian
  import opened JournalFormat
  import opened JournalLayout

  /** Copies a field to position `at` of the buffer, leaving what is before it alone. */
  method CopyInto(buffer: array<Byte>, at: nat, field: seq<Byte>) returns (end: nat)
    requires at + |field| <= buffer.Length
    modifies buffer
    ensures end == at + |field| && buffer[..end] == old(buffer[..at]) + field
  {
    for i := 0 to |field|
      invariant buffer[..at] == old(buffer[..at])
      invariant buffer[at..at + i] == field[..i]
    {
      buffer[at + i] := field[i];
    }
    end := at + |field|;
    assert buffer[..end] == buffer[..at] + buffer[at..end];
  }

  method EncodeHeaderBytes(crc: Checksum, h: FileHeader) returns (buffer: array<Byte>)
    ensures fresh(buffer) && buffer[..] == EncodeHeader(crc, h)
    ensures buffer.Length == 72 && Four(buffer[..], 68) == crc(buffer[..68])
  {
    hide ToLE, Four;
    HeaderLayout(crc, h);
    buffer := new Byte[HEADER_LEN];
    var at := CopyInto(buffer, 0, MAGIC);
    assert buffer[..at] == MAGIC;
    at := CopyInto(buffer, at, ToLE(FORMAT_VERSION, 2));
    at := CopyInto(buffer, at, ToLE(SUPPORTED_FLAGS, 2));
    at := CopyInto(buffer, at, h.transferId);
    at := CopyInto(buffer, at, ToLE(h.totalLength, 8));
    at := CopyInto(buffer, at, ToLE(h.blockSize, 4));
    at := CopyInto(buffer, at, h.validatorHash);
    assert buffer[..at] == HeaderBody(h);
    var checksum := crc(buffer[..at]);
    at := CopyInto(buffer, at, ToLE(checksum, 4));
    assert buffer[..] == buffer[..at];
    assert buffer[..][..68] == buffer[..68];
  }

  method EncodeFrameBytes(crc: Checksum, f: FramedRecord) returns (r: Result<seq<Byte>, FormatError>)
    ensures r == EncodeFrame(crc, f)
    ensures r.Ok? ==> |r.value| >= 15 && Four(r.value, |r.value| - 4) == crc(r.value[..|r.value| - 4])
  {
    hide ToLE, Four, PayloadLayout;
    FrameLayout(crc, f);
    var payload := PayloadOf(f.record);
    if |payload| > MAX_PAYLOAD_LEN {
      return Err(PayloadTooLarge(|payload|, MAX_PAYLOAD_LEN));
    }
    var encoded := ToLE(f.sequence, 8);
    encoded := encoded + [KindOf(f.record)];
    encoded := encoded + ToLE(|payload|, 2);
    encoded := encoded + payload;
    assert encoded == FrameBody(f.sequence, KindOf(f.record), payload);
    encoded := encoded + ToLE(crc(encoded), 4);
    r := Ok(encoded);
  }
}
