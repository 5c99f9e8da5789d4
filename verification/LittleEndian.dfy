/** Fixed-width little-endian integers, as `to_le_bytes` and `from_le_bytes`. */
module LittleEndian {
  import opened Base

  function Bound(width: nat): nat
  {
    if width == 0 then 1 else 256 * Bound(width - 1)
  }

  function ToLE(n: nat, width: nat): (b: seq<Byte>)
    ensures |b| == width
  {
    if width == 0 then [] else [n % 256] + ToLE(n / 256, width - 1)
  }

  function FromLE(b: seq<Byte>): nat
  {
    if b == [] then 0 else b[0] + 256 * FromLE(b[1..])
  }

  lemma BoundValues()
    ensures Bound(2) == U16_MAX + 1 && Bound(4) == U32_MAX + 1 && Bound(8) == U64_MAX + 1
  {
    assert Bound(2) == 0x1_0000;
    assert Bound(4) == 0x1_0000 * Bound(2);
    assert Bound(6) == 0x1_0000 * Bound(4);
    assert Bound(8) == 0x1_0000 * Bound(6);
  }

  lemma {:induction false} FromToLE(n: nat, width: nat)
    requires n < Bound(width)
    ensures FromLE(ToLE(n, width)) == n
  {
    if width > 0 {
      FromToLE(n / 256, width - 1);
      assert ToLE(n, width)[1..] == ToLE(n / 256, width - 1);
    }
  }

  lemma {:induction false} ToFromLE(b: seq<Byte>)
    ensures FromLE(b) < Bound(|b|)
    ensures ToLE(FromLE(b), |b|) == b
  {
    if b != [] {
      ToFromLE(b[1..]);
      var n := FromLE(b);
      assert n % 256 == b[0] && n / 256 == FromLE(b[1..]);
    }
  }

  function ReadU16(b: seq<Byte>): (n: nat)
    requires |b| == 2
    ensures n <= U16_MAX && ToLE(n, 2) == b
  {
    BoundValues();
    ToFromLE(b);
    FromLE(b)
  }

  function ReadU32(b: seq<Byte>): (n: U32)
    requires |b| == 4
    ensures ToLE(n, 4) == b
  {
    BoundValues();
    ToFromLE(b);
    FromLE(b)
  }

  function ReadU64(b: seq<Byte>): (n: U64)
    requires |b| == 8
    ensures ToLE(n, 8) == b
  {
    BoundValues();
    ToFromLE(b);
    FromLE(b)
  }

  lemma ReadWritten16(n: nat)
    requires n <= U16_MAX
    ensures ReadU16(ToLE(n, 2)) == n
  {
    BoundValues();
    FromToLE(n, 2);
  }

  lemma ReadWritten32(n: U32)
    ensures ReadU32(ToLE(n, 4)) == n
  {
    BoundValues();
    FromToLE(n, 4);
  }

  lemma ReadWritten64(n: U64)
    ensures ReadU64(ToLE(n, 8)) == n
  {
    BoundValues();
    FromToLE(n, 8);
  }
}
