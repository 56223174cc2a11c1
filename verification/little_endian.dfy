/**
 Bytes and the little-endian encoding of unsigned integers. The loader reads
 the fixed-width fields of an ELF header and program header from file bytes
 in the platform's (RISC-V, little-endian) byte order, and writes the argv
 pointer array onto the user stack in the same order.
 */
module LittleEndian {

  type byte = b: int | 0 <= b < 256

  /** 256 to the power n: the number of values an n-byte field can hold. */
  function Pow256(n: nat): (p: nat)
    ensures p >= 1
  {
    if n == 0 then 1 else 256 * Pow256(n - 1)
  }

  const U16: nat := 0x1_0000
  const U32: nat := 0x1_0000_0000
  const U64: nat := 0x1_0000_0000_0000_0000

  lemma WidthBounds()
    ensures Pow256(2) == U16 && Pow256(4) == U32 && Pow256(8) == U64
  {
  }

  /** The unsigned value of bs, least significant byte first. */
  function Decode(bs: seq<byte>): (v: nat)
    ensures v < Pow256(|bs|)
  {
    if bs == [] then 0
    else
      var rest := Decode(bs[1..]);
      assert rest <= Pow256(|bs| - 1) - 1;
      assert 256 * rest <= 256 * Pow256(|bs| - 1) - 256;
      bs[0] + 256 * rest
  }

  /** The n-byte little-endian representation of v. */
  function Encode(v: nat, n: nat): (bs: seq<byte>)
    requires v < Pow256(n)
    ensures |bs| == n
  {
    if n == 0 then []
    else
      assert v / 256 < Pow256(n - 1);
      [(v % 256) as byte] + Encode(v / 256, n - 1)
  }

  lemma {:induction false} DecodeEncode(v: nat, n: nat)
    requires v < Pow256(n)
    ensures Decode(Encode(v, n)) == v
  {
    if n > 0 {
      DecodeEncode(v / 256, n - 1);
      assert Encode(v, n)[1..] == Encode(v / 256, n - 1);
    }
  }

  lemma {:induction false} EncodeDecode(bs: seq<byte>)
    ensures Encode(Decode(bs), |bs|) == bs
  {
    if bs != [] {
      var v := Decode(bs);
      assert v % 256 == bs[0] && v / 256 == Decode(bs[1..]);
      EncodeDecode(bs[1..]);
    }
  }

  /** The unsigned field of width n at offset off of a record. */
  function Field(rec: seq<byte>, off: nat, n: nat): (v: nat)
    requires off + n <= |rec|
    ensures v < Pow256(n)
  {
    Decode(rec[off..off + n])
  }

  /** 64-bit words laid out one after another, as an array of uint64 in memory. */
  function EncodeWords(ws: seq<nat>): (bs: seq<byte>)
    requires forall i :: 0 <= i < |ws| ==> ws[i] < U64
    ensures |bs| == 8 * |ws|
  {
    if ws == [] then []
    else
      WidthBounds();
      Encode(ws[0], 8) + EncodeWords(ws[1..])
  }

  /** Word i of an encoded array reads back as ws[i]. */
  lemma {:induction false} EncodeWordsReadBack(ws: seq<nat>, i: nat)
    requires forall k :: 0 <= k < |ws| ==> ws[k] < U64
    requires i < |ws|
    ensures Decode(EncodeWords(ws)[8 * i..8 * i + 8]) == ws[i]
  {
    WidthBounds();
    var bs := EncodeWords(ws);
    if i == 0 {
      assert bs[0..8] == Encode(ws[0], 8);
      DecodeEncode(ws[0], 8);
    } else {
      EncodeWordsReadBack(ws[1..], i - 1);
      assert bs[8 * i..8 * i + 8] == EncodeWords(ws[1..])[8 * (i - 1)..8 * (i - 1) + 8];
    }
  }
}
