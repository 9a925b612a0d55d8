/** Bytes, single bits of a byte, and little-endian 64-bit integers stored in byte buffers. */
module Bytes {

  type byte = bv8

  const U64_MAX: nat := 0xFFFF_FFFF_FFFF_FFFF

  /** The C expression `1 << k`. */
  function Mask(k: nat): byte
    requires k < 8
  {
    (1 as bv8) << k
  }

  lemma MaskValue(k: nat)
    requires k < 8
    ensures Mask(k) == match k
                       case 0 => 1 case 1 => 2 case 2 => 4 case 3 => 8
                       case 4 => 16 case 5 => 32 case 6 => 64 case _ => 128
  {}

  /** Or-ing in bit k sets that bit and no other. */
  lemma OrMask(b: byte, k: nat, j: nat)
    requires k < 8 && j < 8
    ensures (b | Mask(k)) & Mask(j) != 0 <==> j == k || b & Mask(j) != 0
  {
    MaskValue(k);
    MaskValue(j);
  }

  /** And-ing with the complement of bit k clears that bit and no other. */
  lemma AndNotMask(b: byte, k: nat, j: nat)
    requires k < 8 && j < 8
    ensures b & !Mask(k) & Mask(j) != 0 <==> j != k && b & Mask(j) != 0
  {
    MaskValue(k);
    MaskValue(j);
  }

  /** Shifting bit k down and keeping the lowest bit tests bit k. */
  lemma ShiftTest(b: byte, k: nat)
    requires k < 8
    ensures (b >> k) & 1 == if b & Mask(k) != 0 then 1 else 0
  {
    MaskValue(k);
  }

  // ----- little-endian integers

  function Pow256(k: nat): (r: nat)
    ensures r > 0
  {
    if k == 0 then 1 else 256 * Pow256(k - 1)
  }

  function Decode(s: seq<byte>): nat {
    if s == [] then 0 else s[0] as nat + 256 * Decode(s[1..])
  }

  function Encode(v: nat, k: nat): (s: seq<byte>)
    ensures |s| == k
  {
    if k == 0 then [] else [(v % 256) as byte] + Encode(v / 256, k - 1)
  }

  lemma ByteRoundTrip(n: nat)
    requires n < 256
    ensures (n as byte) as nat == n
  {
    if n < 128 {
      if n < 64 {} else {}
    } else {
      if n < 192 {} else {}
    }
  }

  lemma {:induction false} DecodeEncode(v: nat, k: nat)
    requires v < Pow256(k)
    ensures Decode(Encode(v, k)) == v
  {
    if k > 0 {
      ByteRoundTrip(v % 256);
      DecodeEncode(v / 256, k - 1);
      assert Encode(v, k)[1..] == Encode(v / 256, k - 1);
    }
  }

  lemma Pow256Of8()
    ensures Pow256(8) == U64_MAX + 1
  {
    assert Pow256(4) == 0x1_0000_0000;
    assert Pow256(6) == 0x1_0000_0000_0000;
  }

  /** The 64-bit integer stored in b at byte offset off. */
  function GetU64(b: seq<byte>, off: nat): nat
    requires off + 8 <= |b|
  {
    Decode(b[off..off + 8])
  }

  /** b with v stored as a 64-bit integer at byte offset off. */
  function PutU64(b: seq<byte>, off: nat, v: nat): (r: seq<byte>)
    requires off + 8 <= |b|
    ensures |r| == |b|
    ensures forall i :: 0 <= i < |b| && !(off <= i < off + 8) ==> r[i] == b[i]
  {
    b[..off] + Encode(v, 8) + b[off + 8..]
  }

  lemma GetPut(b: seq<byte>, off: nat, v: nat)
    requires off + 8 <= |b| && v <= U64_MAX
    ensures GetU64(PutU64(b, off, v), off) == v
  {
    assert PutU64(b, off, v)[off..off + 8] == Encode(v, 8);
    Pow256Of8();
    DecodeEncode(v, 8);
  }

  lemma GetPutOther(b: seq<byte>, off: nat, v: nat, other: nat)
    requires off + 8 <= |b| && other + 8 <= |b|
    requires off + 8 <= other || other + 8 <= off
    ensures GetU64(PutU64(b, off, v), other) == GetU64(b, other)
  {
    assert PutU64(b, off, v)[other..other + 8] == b[other..other + 8];
  }

  /** Byte i of v, the least significant first. */
  function ByteOf(v: nat, i: nat): byte {
    if i == 0 then (v % 256) as byte else ByteOf(v / 256, i - 1)
  }

  lemma {:induction false} EncodeAt(v: nat, k: nat, i: nat)
    requires i < k
    ensures Encode(v, k)[i] == ByteOf(v, i)
  {
    if i > 0 {
      EncodeAt(v / 256, k - 1, i - 1);
    }
  }

  /** Storing a 64-bit integer puts its eight bytes in place, the least significant first, and touches
      no other byte. */
  lemma PutBytes(b: seq<byte>, off: nat, v: nat)
    requires off + 8 <= |b|
    ensures forall x :: 0 <= x < |b| ==> PutU64(b, off, v)[x] == if off <= x < off + 8 then ByteOf(v, x - off) else b[x]
  {
    hide ByteOf;
    forall x | off <= x < off + 8
      ensures PutU64(b, off, v)[x] == ByteOf(v, x - off)
    {
      EncodeAt(v, 8, x - off);
    }
  }
}
