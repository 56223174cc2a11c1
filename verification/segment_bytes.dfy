/**
 What the program header loop of kexec (kernel/exec.c:115-132) leaves in
 memory: every loadable segment's file bytes written at its vaddr, in
 header order, over zero-filled pages, so a later segment wins where two
 overlap and everything else reads as zero (.bss included).
 */
module SegmentBytes {
  import opened Outcome
  import opened LittleEndian
  import opened ExecTypes
  import opened Elf
  import opened Vm
  import opened Segments
  import opened Shebang

  /** Every byte from the image's size up is still zero. */
  ghost predicate Clean(img: Image) {
    forall a: nat :: img.sz <= a ==> Byte(img.space.mem, a) == 0
  }

  /** Two memories that read the same at every address. */
  ghost predicate SameBytes(m1: Memory, m2: Memory) {
    forall a: nat :: Byte(m1, a) == Byte(m2, a)
  }

  /** The bytes loadseg copies for a header: filesz bytes from off, both truncated to 32 bits. */
  function SegmentData(file: seq<byte>, ph: ProgHeader): seq<byte> {
    ReadAt(file, ph.off % U32, ph.filesz % U32)
  }

  /** A loadable header that passed the checks and whose bytes the file holds in full. */
  ghost predicate Loaded(file: seq<byte>, ph: ProgHeader) {
    && ValidProgHeader(ph) && CheckSegment(ph).None?
    && |SegmentData(file, ph)| == ph.filesz % U32
  }

  /** The loadable program headers from header i on, in table order. */
  ghost function Loadable(file: seq<byte>, elf: ElfHeader, i: nat): seq<ProgHeader>
    decreases elf.phnum - i
  {
    if i >= elf.phnum then []
    else
      var bytes := ReadAt(file, HeaderOffset(elf, i), PROGHDR_SIZE);
      if |bytes| != PROGHDR_SIZE then []
      else
        var ph := DecodeProgHeader(bytes);
        (if ph.kind == ELF_PROG_LOAD then [ph] else []) + Loadable(file, elf, i + 1)
  }

  /** mem with the segments hs written one after the other, first to last. */
  ghost function Overlay(mem: Memory, file: seq<byte>, hs: seq<ProgHeader>): Memory
    decreases |hs|
  {
    if hs == [] then mem
    else Overlay(Written(mem, hs[0].vaddr, SegmentData(file, hs[0])), file, hs[1..])
  }

  /** The memory image of an executable: its loadable segments over zeroes. */
  ghost function ProgramImage(file: seq<byte>): Memory
    requires |file| >= ELFHDR_SIZE
  {
    Overlay(Zeroed, file, Loadable(file, ElfOf(file), 0))
  }

  /** Writing the same segments over memories that read the same gives memories that read the same. */
  lemma {:induction false} OverlaySame(m1: Memory, m2: Memory, file: seq<byte>, hs: seq<ProgHeader>)
    requires SameBytes(m1, m2)
    ensures SameBytes(Overlay(m1, file, hs), Overlay(m2, file, hs))
    decreases |hs|
  {
    if hs != [] {
      var d := SegmentData(file, hs[0]);
      assert SameBytes(Written(m1, hs[0].vaddr, d), Written(m2, hs[0].vaddr, d)) by {
        forall a: nat ensures Byte(Written(m1, hs[0].vaddr, d), a) == Byte(Written(m2, hs[0].vaddr, d), a) {
        }
      }
      OverlaySame(Written(m1, hs[0].vaddr, d), Written(m2, hs[0].vaddr, d), file, hs[1..]);
    }
  }

  /** Growing a clean image for a segment changes no byte: the new pages were zero already. */
  lemma GrowForBytes(img: Image, ph: ProgHeader, ok: bool)
    requires WellFormed(img) && Clean(img) && ValidProgHeader(ph) && CheckSegment(ph).None?
    ensures GrowFor(img, ph, ok).Ok? ==> SameBytes(GrowFor(img, ph, ok).value.space.mem, img.space.mem)
  {
    UvmallocBytes(img.space, img.sz, ph.vaddr + ph.memsz, Flags2Perm(FlagBits(ph.flags)), ok);
  }

  /**
   One loadable segment: growing the image and loadseg together write the
   segment's bytes at vaddr and change nothing else, and the image stays
   zero above its new size.
   */
  lemma LoadSegmentBytes(file: seq<byte>, ph: ProgHeader, img: Image, ok: bool)
    requires WellFormed(img) && Clean(img) && ValidProgHeader(ph) && CheckSegment(ph).None?
    ensures LoadSegment(file, ph, img, ok).Ok? ==>
      && Clean(LoadSegment(file, ph, img, ok).value)
      && Loaded(file, ph)
      && SameBytes(LoadSegment(file, ph, img, ok).value.space.mem, Written(img.space.mem, ph.vaddr, SegmentData(file, ph)))
  {
    var r := LoadSegment(file, ph, img, ok);
    var grown := GrowFor(img, ph, ok);
    if r.Ok? {
      GrowForBytes(img, ph, ok);
      PageAligned(ph.vaddr);
      var data := SegmentData(file, ph);
      assert r.value.space.mem == Written(grown.value.space.mem, ph.vaddr, data);
      assert |data| <= ph.memsz;
    }
  }

  /**
   The program header loop from header i on, started from a clean image:
   on success every loadable header was loaded in full, and memory reads as
   the loadable segments written over the starting memory in header order.
   */
  lemma {:induction false} LoadSegmentsBytes(file: seq<byte>, elf: ElfHeader, segmentFails: set<nat>, i: nat, img: Image)
    requires WellFormed(img) && Clean(img)
    ensures LoadSegments(file, elf, segmentFails, i, img).Ok? ==>
      && Clean(LoadSegments(file, elf, segmentFails, i, img).value)
      && (forall k :: 0 <= k < |Loadable(file, elf, i)| ==> Loaded(file, Loadable(file, elf, i)[k]))
      && SameBytes(LoadSegments(file, elf, segmentFails, i, img).value.space.mem,
                   Overlay(img.space.mem, file, Loadable(file, elf, i)))
    decreases elf.phnum - i
  {
    var r := LoadSegments(file, elf, segmentFails, i, img);
    if r.Ok? && i < elf.phnum {
      var bytes := ReadAt(file, HeaderOffset(elf, i), PROGHDR_SIZE);
      var ph := DecodeProgHeader(bytes);
      var rest := Loadable(file, elf, i + 1);
      if ph.kind != ELF_PROG_LOAD {
        LoadSegmentsBytes(file, elf, segmentFails, i + 1, img);
        assert Loadable(file, elf, i) == rest;
      } else {
        var next := LoadSegment(file, ph, img, i !in segmentFails);
        LoadSegmentBytes(file, ph, img, i !in segmentFails);
        LoadSegmentsBytes(file, elf, segmentFails, i + 1, next.value);
        var hs := Loadable(file, elf, i);
        assert hs == [ph] + rest;
        assert hs[1..] == rest;
        var written := Written(img.space.mem, ph.vaddr, SegmentData(file, ph));
        OverlaySame(next.value.space.mem, written, file, rest);
        assert Overlay(img.space.mem, file, hs) == Overlay(written, file, rest);
        forall k | 0 <= k < |hs| ensures Loaded(file, hs[k]) {
          if k > 0 {
            assert hs[k] == rest[k - 1];
          }
        }
      }
    }
  }

  /** The file parts of the segments hs keep off the addresses from lo up to hi. */
  ghost predicate Untouched(hs: seq<ProgHeader>, lo: nat, hi: nat) {
    forall j :: 0 <= j < |hs| ==> hs[j].vaddr + hs[j].filesz % U32 <= lo || hi <= hs[j].vaddr
  }

  /** Where no segment writes, the overlay reads as the memory below it. */
  lemma {:induction false} OverlayOutside(mem: Memory, file: seq<byte>, hs: seq<ProgHeader>, lo: nat, hi: nat, a: nat)
    requires Untouched(hs, lo, hi) && lo <= a < hi
    ensures Byte(Overlay(mem, file, hs), a) == Byte(mem, a)
    decreases |hs|
  {
    if hs != [] {
      assert Untouched(hs[1..], lo, hi) by {
        forall j | 0 <= j < |hs[1..]|
          ensures hs[1..][j].vaddr + hs[1..][j].filesz % U32 <= lo || hi <= hs[1..][j].vaddr
        {
          assert hs[1..][j] == hs[j + 1];
        }
      }
      OverlayOutside(Written(mem, hs[0].vaddr, SegmentData(file, hs[0])), file, hs[1..], lo, hi, a);
      assert hs[0].vaddr + hs[0].filesz % U32 <= lo || hi <= hs[0].vaddr;
    }
  }

  /** Writing a list of segments is writing its first part, then the rest. */
  lemma {:induction false} OverlaySplit(mem: Memory, file: seq<byte>, hs: seq<ProgHeader>, k: nat)
    requires k <= |hs|
    ensures Overlay(mem, file, hs) == Overlay(Overlay(mem, file, hs[..k]), file, hs[k..])
    decreases k
  {
    if k > 0 {
      var m := Written(mem, hs[0].vaddr, SegmentData(file, hs[0]));
      OverlaySplit(m, file, hs[1..], k - 1);
      assert hs[1..][..k - 1] == hs[..k][1..];
      assert hs[1..][k - 1..] == hs[k..];
    } else {
      assert hs[..0] == [];
      assert hs[0..] == hs;
    }
  }

  /** Writing segments in order, the first k first, is writing segment k over their result. */
  lemma OverlayThrough(mem: Memory, file: seq<byte>, hs: seq<ProgHeader>, k: nat)
    requires k < |hs|
    ensures Overlay(mem, file, hs[..k + 1]) == Written(Overlay(mem, file, hs[..k]), hs[k].vaddr, SegmentData(file, hs[k]))
  {
    OverlaySplit(mem, file, hs[..k + 1], k);
    assert hs[..k + 1][..k] == hs[..k];
    assert hs[..k + 1][k..] == [hs[k]];
  }

  /** Where the segments after the first k + 1 do not write, the overlay reads as that of the first k + 1. */
  lemma OverlayAfter(file: seq<byte>, hs: seq<ProgHeader>, k: nat, a: nat)
    requires k < |hs| && Untouched(hs[k + 1..], a, a + 1)
    ensures Byte(Overlay(Zeroed, file, hs), a) == Byte(Overlay(Zeroed, file, hs[..k + 1]), a)
  {
    OverlaySplit(Zeroed, file, hs, k + 1);
    OverlayOutside(Overlay(Zeroed, file, hs[..k + 1]), file, hs[k + 1..], a, a + 1, a);
  }

  /** Byte j of segment k's data is in the overlay where no later segment writes over it. */
  lemma SegmentByteAt(file: seq<byte>, hs: seq<ProgHeader>, k: nat, j: nat)
    requires k < |hs| && j < |SegmentData(file, hs[k])|
    requires Untouched(hs[k + 1..], hs[k].vaddr + j, hs[k].vaddr + j + 1)
    ensures Byte(Overlay(Zeroed, file, hs), hs[k].vaddr + j) == SegmentData(file, hs[k])[j]
  {
    OverlayAfter(file, hs, k, hs[k].vaddr + j);
    OverlayThrough(Zeroed, file, hs, k);
  }

  /**
   Segment k of an image built by the loop holds its file bytes from vaddr
   on, where no later segment writes over it.
   */
  lemma SegmentInImage(mem: Memory, file: seq<byte>, hs: seq<ProgHeader>, k: nat)
    requires SameBytes(mem, Overlay(Zeroed, file, hs))
    requires k < |hs| && Loaded(file, hs[k]) && hs[k].filesz < U32 && hs[k].off < U32 && hs[k].filesz > 0
    requires Untouched(hs[k + 1..], hs[k].vaddr, hs[k].vaddr + hs[k].filesz)
    ensures ReadBytes(mem, hs[k].vaddr, hs[k].filesz) == file[hs[k].off..hs[k].off + hs[k].filesz]
  {
    var ph := hs[k];
    Below32(ph.filesz);
    Below32(ph.off);
    assert SegmentData(file, ph) == ReadAt(file, ph.off, ph.filesz);
    ReadAtContent(file, ph.off, ph.filesz);
    forall a: nat | ph.vaddr <= a < ph.vaddr + ph.filesz
      ensures Byte(mem, a) == file[ph.off + (a - ph.vaddr)]
    {
      assert Untouched(hs[k + 1..], a, a + 1);
      SegmentByteAt(file, hs, k, a - ph.vaddr);
    }
    ReadFileBytes(mem, ph.vaddr, file, ph.off, ph.filesz);
  }

  /** Memory that holds n bytes of file from off on at va reads as that slice of the file. */
  lemma ReadFileBytes(mem: Memory, va: nat, file: seq<byte>, off: nat, n: nat)
    requires off + n <= |file|
    requires forall a: nat :: va <= a < va + n ==> Byte(mem, a) == file[off + (a - va)]
    ensures ReadBytes(mem, va, n) == file[off..off + n]
  {
    var got := ReadBytes(mem, va, n);
    forall j | 0 <= j < n
      ensures got[j] == file[off..off + n][j]
    {
      assert got[j] == Byte(mem, va + j);
    }
  }

  /** Past its file bytes, segment k reads as zero up to memsz where no segment writes (.bss). */
  lemma SegmentZerosInImage(mem: Memory, file: seq<byte>, hs: seq<ProgHeader>, k: nat)
    requires SameBytes(mem, Overlay(Zeroed, file, hs))
    requires k < |hs| && Loaded(file, hs[k])
    requires Untouched(hs, hs[k].vaddr + hs[k].filesz, hs[k].vaddr + hs[k].memsz)
    ensures ReadBytes(mem, hs[k].vaddr + hs[k].filesz, hs[k].memsz - hs[k].filesz) == Zeros(hs[k].memsz - hs[k].filesz)
  {
    var ph := hs[k];
    forall a: nat | ph.vaddr + ph.filesz <= a < ph.vaddr + ph.filesz + (ph.memsz - ph.filesz)
      ensures Byte(mem, a) == 0
    {
      OverlayOutside(Zeroed, file, hs, ph.vaddr + ph.filesz, ph.vaddr + ph.memsz, a);
    }
    ReadZeros(mem, ph.vaddr + ph.filesz, ph.memsz - ph.filesz);
  }
}
