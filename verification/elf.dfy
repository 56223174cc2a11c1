/**
 The parts of the ELF-64 format (System V ABI) the loader reads: the file
 header (magic, entry point, program header table offset and count) and the
 program header of each segment. Fields are little-endian; the offsets below
 are those of `struct elfhdr` and `struct proghdr` in xv6's elf.h, which is
 not part of this model. Fields the loader never reads are left out of the
 datatypes and encode as zero.
 */
module Elf {
  import opened LittleEndian

  /** "\x7FELF" read as a little-endian 32-bit word. */
  const ELF_MAGIC: nat := 0x464C457F

  /** Program header type of a loadable segment (PT_LOAD). */
  const ELF_PROG_LOAD: nat := 1

  const ELFHDR_SIZE: nat := 64
  const PROGHDR_SIZE: nat := 56

  datatype ElfHeader = ElfHeader(magic: nat, entry: nat, phoff: nat, phnum: nat)

  predicate ValidElfHeader(h: ElfHeader) {
    h.magic < U32 && h.entry < U64 && h.phoff < U64 && h.phnum < U16
  }

  datatype ProgHeader = ProgHeader(kind: nat, flags: nat, off: nat, vaddr: nat, filesz: nat, memsz: nat)

  predicate ValidProgHeader(ph: ProgHeader) {
    ph.kind < U32 && ph.flags < U32 && ph.off < U64 && ph.vaddr < U64 && ph.filesz < U64 && ph.memsz < U64
  }

  function DecodeElfHeader(bs: seq<byte>): (h: ElfHeader)
    requires |bs| == ELFHDR_SIZE
    ensures ValidElfHeader(h)
  {
    WidthBounds();
    ElfHeader(Field(bs, 0, 4), Field(bs, 24, 8), Field(bs, 32, 8), Field(bs, 56, 2))
  }

  function Zeros(n: nat): (bs: seq<byte>)
    ensures |bs| == n
    ensures forall k :: 0 <= k < n ==> bs[k] == 0
  {
    if n == 0 then [] else [0] + Zeros(n - 1)
  }

  function EncodeElfHeader(h: ElfHeader): (bs: seq<byte>)
    requires ValidElfHeader(h)
    ensures |bs| == ELFHDR_SIZE
  {
    WidthBounds();
    Encode(h.magic, 4) + Zeros(20) + Encode(h.entry, 8) + Encode(h.phoff, 8)
    + Zeros(16) + Encode(h.phnum, 2) + Zeros(6)
  }

  lemma ElfHeaderRoundTrip(h: ElfHeader)
    requires ValidElfHeader(h)
    ensures DecodeElfHeader(EncodeElfHeader(h)) == h
  {
    ElfHeaderLeadingFields(h);
    ElfHeaderCount(h);
  }

  /** Magic, entry point and program header offset read back from their places in the encoding. */
  lemma ElfHeaderLeadingFields(h: ElfHeader)
    requires ValidElfHeader(h)
    ensures Field(EncodeElfHeader(h), 0, 4) == h.magic
    ensures Field(EncodeElfHeader(h), 24, 8) == h.entry
    ensures Field(EncodeElfHeader(h), 32, 8) == h.phoff
  {
    WidthBounds();
    var bs := EncodeElfHeader(h);
    assert bs[0..4] == Encode(h.magic, 4);
    assert bs[24..32] == Encode(h.entry, 8);
    assert bs[32..40] == Encode(h.phoff, 8);
    DecodeEncode(h.magic, 4);
    DecodeEncode(h.entry, 8);
    DecodeEncode(h.phoff, 8);
  }

  /** The program header count reads back from its place in the encoding. */
  lemma ElfHeaderCount(h: ElfHeader)
    requires ValidElfHeader(h)
    ensures Field(EncodeElfHeader(h), 56, 2) == h.phnum
  {
    WidthBounds();
    assert EncodeElfHeader(h)[56..58] == Encode(h.phnum, 2);
    DecodeEncode(h.phnum, 2);
  }

  /** The 32-bit flags word as a bit vector. */
  function FlagBits(v: nat): bv32
    requires v < U32
  {
    WidthBounds();
    v as bv32
  }

  function DecodeProgHeader(bs: seq<byte>): (ph: ProgHeader)
    requires |bs| == PROGHDR_SIZE
    ensures ValidProgHeader(ph)
  {
    WidthBounds();
    ProgHeader(Field(bs, 0, 4), Field(bs, 4, 4), Field(bs, 8, 8), Field(bs, 16, 8),
               Field(bs, 32, 8), Field(bs, 40, 8))
  }

  function EncodeProgHeader(ph: ProgHeader): (bs: seq<byte>)
    requires ValidProgHeader(ph)
    ensures |bs| == PROGHDR_SIZE
  {
    WidthBounds();
    Encode(ph.kind, 4) + Encode(ph.flags, 4) + Encode(ph.off, 8) + Encode(ph.vaddr, 8)
    + Zeros(8) + Encode(ph.filesz, 8) + Encode(ph.memsz, 8) + Zeros(8)
  }

  lemma ProgHeaderRoundTrip(ph: ProgHeader)
    requires ValidProgHeader(ph)
    ensures DecodeProgHeader(EncodeProgHeader(ph)) == ph
  {
    ProgHeaderLeadingFields(ph);
    ProgHeaderTrailingFields(ph);
  }

  /** Type, flags and file offset read back from their places in the encoding. */
  lemma ProgHeaderLeadingFields(ph: ProgHeader)
    requires ValidProgHeader(ph)
    ensures Field(EncodeProgHeader(ph), 0, 4) == ph.kind
    ensures Field(EncodeProgHeader(ph), 4, 4) == ph.flags
    ensures Field(EncodeProgHeader(ph), 8, 8) == ph.off
  {
    WidthBounds();
    var bs := EncodeProgHeader(ph);
    assert bs[0..4] == Encode(ph.kind, 4);
    assert bs[4..8] == Encode(ph.flags, 4);
    assert bs[8..16] == Encode(ph.off, 8);
    DecodeEncode(ph.kind, 4);
    DecodeEncode(ph.flags, 4);
    DecodeEncode(ph.off, 8);
  }

  /** Virtual address, file size and memory size read back from their places in the encoding. */
  lemma ProgHeaderTrailingFields(ph: ProgHeader)
    requires ValidProgHeader(ph)
    ensures Field(EncodeProgHeader(ph), 16, 8) == ph.vaddr
    ensures Field(EncodeProgHeader(ph), 32, 8) == ph.filesz
    ensures Field(EncodeProgHeader(ph), 40, 8) == ph.memsz
  {
    WidthBounds();
    var bs := EncodeProgHeader(ph);
    assert bs[16..24] == Encode(ph.vaddr, 8);
    assert bs[32..40] == Encode(ph.filesz, 8);
    assert bs[40..48] == Encode(ph.memsz, 8);
    DecodeEncode(ph.vaddr, 8);
    DecodeEncode(ph.filesz, 8);
    DecodeEncode(ph.memsz, 8);
  }

  /** The four bytes "\x7FELF" that begin an ELF file. */
  predicate HasMagic(bs: seq<byte>) {
    |bs| >= 4 && bs[0] == 0x7F && bs[1] == 0x45 && bs[2] == 0x4C && bs[3] == 0x46
  }

  /** Comparing the first little-endian word with ELF_MAGIC is comparing the four magic bytes. */
  lemma MagicBytes(bs: seq<byte>)
    requires |bs| >= 4
    ensures Field(bs, 0, 4) == ELF_MAGIC <==> HasMagic(bs)
  {
    var w := bs[0..4];
    WidthBounds();
    if Field(bs, 0, 4) == ELF_MAGIC {
      EncodeDecode(w);
      assert Encode(ELF_MAGIC, 4) == [0x7F, 0x45, 0x4C, 0x46];
    }
    if HasMagic(bs) {
      assert w == [0x7F, 0x45, 0x4C, 0x46];
      assert Decode(w) == 0x7F + 256 * Decode(w[1..]);
      assert Decode(w[1..]) == 0x45 + 256 * Decode(w[2..]);
      assert Decode(w[2..]) == 0x4C + 256 * Decode(w[3..]);
      assert Decode(w[3..]) == 0x46 + 256 * Decode(w[4..]);
    }
  }
}
