/**
 Loading the segments of an ELF image (kernel/exec.c:12-20, 115-132 and
 195-214): walk the program header table, skip headers that are not
 loadable, validate the rest, grow the address space to cover each segment
 and copy the segment's file bytes in page-sized chunks.
 */
module Segments {
  import opened LittleEndian
  import opened Outcome
  import opened ExecTypes
  import opened Elf
  import opened Vm

  /** ELF segment flag bits (p_flags). */
  const PF_X: bv32 := 1
  const PF_W: bv32 := 2

  /**
   flags2perm: the page permission a segment asks for. Executable segments
   get PTE_X and writable ones PTE_W; the read flag is ignored because
   uvmalloc adds PTE_R (and PTE_U) to every page anyway.
   */
  function Flags2Perm(flags: bv32): (perm: Pte)
    ensures perm & PTE_X != 0 <==> flags & PF_X != 0
    ensures perm & PTE_W != 0 <==> flags & PF_W != 0
    ensures perm & !(PTE_X | PTE_W) == 0
  {
    var perm: Pte := if flags & PF_X != 0 then PTE_X else 0;
    if flags & PF_W != 0 then perm | PTE_W else perm
  }

  /**
   The panic-free condition of loadseg: walkaddr finds a user page for
   every chunk, that is at base + i for i = 0, PGSIZE, ... below sz, where
   base is the start of the page holding va.
   */
  predicate ChunksMapped(pages: map<nat, Pte>, base: nat, sz: nat, i: nat)
    decreases sz - i
  {
    i >= sz || (UserPage(pages, base + i) && ChunksMapped(pages, base, sz, i + PGSIZE))
  }

  lemma {:induction false} RangeChunksMapped(pages: map<nat, Pte>, base: nat, sz: nat, i: nat, bound: nat)
    requires base + sz <= bound
    requires forall a :: base <= a < bound ==> UserPage(pages, a)
    ensures ChunksMapped(pages, base, sz, i)
    decreases sz - i
  {
    if i < sz {
      assert UserPage(pages, base + i);
      RangeChunksMapped(pages, base, sz, i + PGSIZE, bound);
    }
  }

  /** Bytes in the chunk that starts at offset i of a segment of sz bytes. */
  function ChunkLen(sz: nat, i: nat): (n: nat)
    requires i < sz
    ensures 0 < n <= PGSIZE && i + n <= sz
    ensures n < PGSIZE ==> i + n == sz
  {
    if sz - i < PGSIZE then sz - i else PGSIZE
  }

  /** The sum of two 32-bit unsigned values, wrapped as C's `uint` addition wraps. */
  function Add32(a: nat, b: nat): (s: nat)
    requires a < U32 && b < U32
    ensures s < U32
    ensures a + b < U32 ==> s == a + b
    ensures a + b >= U32 ==> s == a + b - U32
  {
    if a + b < U32 then a + b else a + b - U32
  }

  /** A value below 2^32 is its own 32-bit truncation. */
  lemma Below32(a: nat)
    requires a < U32
    ensures a % U32 == a
  {
  }

  lemma AlignedStep(i: nat)
    requires i % PGSIZE == 0
    ensures (i + PGSIZE) % PGSIZE == 0
  {
  }

  /** A page-aligned chunk offset moves the page start by exactly that much. */
  lemma RoundDownShift(va: nat, i: nat)
    requires i % PGSIZE == 0
    ensures PgRoundDown(va + i) == PgRoundDown(va) + i
  {
    var k := i / PGSIZE;
    assert i == k * PGSIZE;
    assert (va + k * PGSIZE) % PGSIZE == va % PGSIZE;
  }

  /**
   loadseg(space, va, file, offset, sz) by its net effect: the sz bytes of
   the file from offset on, as one readi returns them, land at the start
   of va's page, or the load fails when readi comes back short. The source
   panics when a chunk's page is not a mapped user page, so that is the
   precondition. LoadSegLoop is the loop the source runs and has the same
   outcome and the same bytes.
   */
  function LoadSeg(space: AddrSpace, va: nat, file: seq<byte>, offset: nat, sz: nat): (r: Option<AddrSpace>)
    requires offset < U32 && sz < U32
    requires ChunksMapped(space.pages, PgRoundDown(va), sz, 0)
  {
    var data := ReadAt(file, offset, sz);
    if |data| != sz then None
    else Some(space.(mem := WriteBytes(space.mem, PgRoundDown(va), data)))
  }

  /**
   What loadseg promises: it fails exactly when the file is too short or
   the 32-bit offset would wrap; on success no page changes, the segment
   holds the file's bytes, and no byte outside it changes.
   */
  lemma LoadSegSpec(space: AddrSpace, va: nat, file: seq<byte>, offset: nat, sz: nat)
    requires offset < U32 && sz < U32
    requires ChunksMapped(space.pages, PgRoundDown(va), sz, 0)
    ensures LoadSeg(space, va, file, offset, sz).Some? <==> sz == 0 || (offset + sz <= |file| && offset + sz < U32)
    ensures LoadSeg(space, va, file, offset, sz).Some? ==> LoadSeg(space, va, file, offset, sz).value.pages == space.pages
    ensures LoadSeg(space, va, file, offset, sz).Some? && sz > 0 ==>
            ReadBytes(LoadSeg(space, va, file, offset, sz).value.mem, PgRoundDown(va), sz) == file[offset..offset + sz]
    ensures LoadSeg(space, va, file, offset, sz).Some? ==>
            forall a: nat :: a < PgRoundDown(va) || PgRoundDown(va) + sz <= a ==>
              Byte(LoadSeg(space, va, file, offset, sz).value.mem, a) == Byte(space.mem, a)
  {
    var data := ReadAt(file, offset, sz);
    if |data| == sz && sz > 0 {
      ReadAtContent(file, offset, sz);
      var got := ReadBytes(WriteBytes(space.mem, PgRoundDown(va), data), PgRoundDown(va), sz);
      assert forall j :: 0 <= j < sz ==> got[j] == data[j];
    }
  }

  /**
   The bytes of mem are those of orig with the first n bytes of the segment
   at base replaced by the file's bytes from offset on.
   */
  ghost predicate LoadedUpTo(mem: Memory, orig: Memory, base: nat, file: seq<byte>, offset: nat, n: nat) {
    (n == 0 || offset + n <= |file|) &&
    forall a: nat :: Byte(mem, a) == if base <= a < base + n then file[offset + (a - base)] else Byte(orig, a)
  }

  /** Writing the next chunk of the file right after the part already loaded extends it. */
  lemma WriteChunk(mem: Memory, orig: Memory, base: nat, file: seq<byte>, offset: nat, n: nat, data: seq<byte>)
    requires LoadedUpTo(mem, orig, base, file, offset, n)
    requires data != [] && offset + n + |data| <= |file|
    requires forall k :: 0 <= k < |data| ==> data[k] == file[offset + n + k]
    ensures LoadedUpTo(WriteBytes(mem, base + n, data), orig, base, file, offset, n + |data|)
  {
    var m := WriteBytes(mem, base + n, data);
    forall a: nat
      ensures Byte(m, a) == if base <= a < base + n + |data| then file[offset + (a - base)] else Byte(orig, a)
    {
      if base + n <= a < base + n + |data| {
        assert data[a - (base + n)] == file[offset + n + (a - (base + n))];
      }
    }
  }

  /**
   The state of loadseg's loop before the chunk at offset i: every chunk so
   far was read in full without the 32-bit offset wrapping and written at
   its page, and the chunks still to come are mapped user pages.
   */
  ghost predicate Loading(mem: Memory, space: AddrSpace, va: nat, file: seq<byte>, offset: nat, sz: nat, i: nat) {
    && i % PGSIZE == 0
    && (i < sz ==> offset + i < U32)
    && (0 < i ==> offset + Min(i, sz) < U32)
    && ChunksMapped(space.pages, PgRoundDown(va), sz, i)
    && LoadedUpTo(mem, space.mem, PgRoundDown(va), file, offset, Min(i, sz))
  }

  /** Reading the chunk at i in full and writing it at its page moves the loop on by a page. */
  lemma LoadingStep(mem: Memory, space: AddrSpace, va: nat, file: seq<byte>, offset: nat, sz: nat, i: nat, data: seq<byte>)
    requires offset < U32 && Loading(mem, space, va, file, offset, sz, i) && i < sz
    requires data == ReadAt(file, offset + i, ChunkLen(sz, i)) && |data| == ChunkLen(sz, i)
    ensures Loading(WriteBytes(mem, PgRoundDown(va + i), data), space, va, file, offset, sz, i + PGSIZE)
  {
    var base := PgRoundDown(va);
    ReadAtContent(file, offset + i, ChunkLen(sz, i));
    assert Min(i, sz) == i && Min(i + PGSIZE, sz) == i + |data|;
    WriteChunk(mem, space.mem, base, file, offset, i, data);
    RoundDownShift(va, i);
    AlignedStep(i);
  }

  /** Once the whole segment is loaded, memory reads as loadseg's net effect. */
  lemma LoadedAll(mem: Memory, space: AddrSpace, va: nat, file: seq<byte>, offset: nat, sz: nat, i: nat)
    requires offset < U32 && sz < U32
    requires ChunksMapped(space.pages, PgRoundDown(va), sz, 0)
    requires Loading(mem, space, va, file, offset, sz, i) && sz <= i
    ensures LoadSeg(space, va, file, offset, sz).Some?
    ensures forall a: nat :: Byte(mem, a) == Byte(LoadSeg(space, va, file, offset, sz).value.mem, a)
  {
    assert Min(i, sz) == sz;
    ReadAtContent(file, offset, sz);
  }

  /**
   loadseg as the source writes it: for each page-sized chunk, walkaddr
   finds the page (the precondition rules out its panic), readi reads the
   chunk at the 32-bit offset, and a short read fails the load. It fails
   exactly when LoadSeg does and otherwise leaves the same bytes and pages.
   */
  method LoadSegLoop(space: AddrSpace, va: nat, file: seq<byte>, offset: nat, sz: nat) returns (r: Option<AddrSpace>)
    requires offset < U32 && sz < U32
    requires ChunksMapped(space.pages, PgRoundDown(va), sz, 0)
    ensures r.Some? <==> LoadSeg(space, va, file, offset, sz).Some?
    ensures r.Some? ==> r.value.pages == space.pages
    ensures r.Some? ==> forall a: nat :: Byte(r.value.mem, a) == Byte(LoadSeg(space, va, file, offset, sz).value.mem, a)
  {
    var mem := space.mem;
    var i := 0;
    while i < sz
      invariant Loading(mem, space, va, file, offset, sz, i)
      decreases sz - i
    {
      assert UserPage(space.pages, PgRoundDown(va) + i);
      var n := if sz - i < PGSIZE then sz - i else PGSIZE;
      Below32(offset + i);
      var data := ReadAt(file, (offset + i) % U32, n);
      if |data| != n {
        LoadSegShort(space, va, file, offset, sz, i, n);
        return None;
      }
      LoadingStep(mem, space, va, file, offset, sz, i, data);
      mem := WriteBytes(mem, PgRoundDown(va + i), data);
      i := i + PGSIZE;
    }
    LoadedAll(mem, space, va, file, offset, sz, i);
    r := Some(space.(mem := mem));
  }

  /** A short read of any chunk means the file cannot supply the whole segment. */
  lemma LoadSegShort(space: AddrSpace, va: nat, file: seq<byte>, offset: nat, sz: nat, i: nat, n: nat)
    requires offset < U32 && sz < U32
    requires ChunksMapped(space.pages, PgRoundDown(va), sz, 0)
    requires offset + i < U32 && 0 < n && i + n <= sz
    requires |ReadAt(file, offset + i, n)| != n
    ensures LoadSeg(space, va, file, offset, sz).None?
  {
  }

  /**
   loadseg's counter after k turns of its loop: `i += PGSIZE` on the
   32-bit `uint i`, which wraps. LoadSegLoop counts in `nat`; the two agree
   while k * PGSIZE < 2^32 (CounterAgrees), which covers every segment
   whose size is at most 2^32 - PGSIZE.
   */
  function Counter32(k: nat): (i: nat)
    ensures i < U32 && i % PGSIZE == 0
  {
    if k == 0 then 0
    else
      var prev := Counter32(k - 1);
      AlignedStep(prev);
      Add32(prev, PGSIZE)
  }

  /** Without wrapping, the counter after k turns is k pages. */
  lemma {:induction false} CounterAgrees(k: nat)
    requires k * PGSIZE < U32
    ensures Counter32(k) == k * PGSIZE
  {
    if k > 0 {
      CounterAgrees(k - 1);
    }
  }

  /** After 2^32 / PGSIZE turns the counter is back at the first chunk. */
  lemma CounterWrapsToZero(k: nat)
    requires k * PGSIZE == U32
    ensures Counter32(k) == 0
  {
    CounterAgrees(k - 1);
  }

  /** A page-aligned 32-bit value is at most the last page's start. */
  lemma AlignedBelow32(i: nat)
    requires i < U32 && i % PGSIZE == 0
    ensures i <= U32 - PGSIZE
  {
    var q := i / PGSIZE;
    assert i == q * PGSIZE;
  }

  /**
   For a segment of more than 2^32 - PGSIZE bytes the loop test `i < sz`
   holds at every turn, so the loop never ends by its test: it ends only
   when a read comes back short, and after the chunk at 2^32 - PGSIZE it
   starts over at offset 0.
   */
  lemma LoadSegNeverExits(sz: nat, k: nat)
    requires U32 - PGSIZE < sz < U32
    ensures Counter32(k) < sz
  {
    AlignedBelow32(Counter32(k));
  }

  /** The part of the address space built so far, and its size. */
  datatype Image = Image(space: AddrSpace, sz: nat)

  /** Every page below sz is mapped, every mapped page is user-accessible. */
  ghost predicate WellFormed(img: Image) {
    Covers(img.space, img.sz) && AllUser(img.space)
  }

  /** The file offset of program header i: a 32-bit sum, as `off` is a C int. */
  function HeaderOffset(elf: ElfHeader, i: nat): (off: nat)
    ensures off < U32
  {
    (elf.phoff + PROGHDR_SIZE * i) % U32
  }

  /** Why a loadable program header is refused, if it is. */
  function CheckSegment(ph: ProgHeader): (r: Option<Error>)
    ensures r.None? <==> ph.filesz <= ph.memsz && ph.vaddr + ph.memsz < U64 && ph.vaddr % PGSIZE == 0
  {
    if ph.memsz < ph.filesz then Some(BadSegment)
    else if ph.vaddr + ph.memsz >= U64 then Some(BadSegment)
    else if ph.vaddr % PGSIZE != 0 then Some(BadSegment)
    else None
  }

  /**
   uvmalloc for one validated segment: grow the image to vaddr + memsz,
   mapping the new pages with the segment's permission (ok says whether
   the page allocator has memory). uvmalloc returning 0 fails the load.
   */
  function GrowFor(img: Image, ph: ProgHeader, ok: bool): (r: Result<Image, Error>)
    requires WellFormed(img) && ValidProgHeader(ph) && CheckSegment(ph).None?
    ensures r.Ok? ==> WellFormed(r.value) && r.value.sz == Max(img.sz, ph.vaddr + ph.memsz)
    ensures r.Ok? ==> ChunksMapped(r.value.space.pages, PgRoundDown(ph.vaddr), ph.filesz % U32, 0)
    ensures r.Ok? ==> forall p :: p in img.space.pages ==> p in r.value.space.pages && r.value.space.pages[p] == img.space.pages[p]
    ensures r.Err? ==> r.error == if ph.vaddr + ph.memsz == 0 then EmptyImage else OutOfMemory
  {
    var (space, sz) := Uvmalloc(img.space, img.sz, ph.vaddr + ph.memsz, Flags2Perm(FlagBits(ph.flags)), ok);
    if sz == 0 then Err(if ph.vaddr + ph.memsz == 0 then EmptyImage else OutOfMemory)
    else
      UvmallocCovers(img.space, img.sz, ph.vaddr + ph.memsz, Flags2Perm(FlagBits(ph.flags)), ok);
      GrownMapped(img, ph, ok);
      Ok(Image(space, sz))
  }

  /** After uvmalloc grows the image for a segment, every chunk loadseg touches is a mapped user page. */
  lemma GrownMapped(img: Image, ph: ProgHeader, ok: bool)
    requires WellFormed(img) && ValidProgHeader(ph) && CheckSegment(ph).None?
    requires Uvmalloc(img.space, img.sz, ph.vaddr + ph.memsz, Flags2Perm(FlagBits(ph.flags)), ok).1 != 0
    ensures ChunksMapped(Uvmalloc(img.space, img.sz, ph.vaddr + ph.memsz, Flags2Perm(FlagBits(ph.flags)), ok).0.pages,
                         PgRoundDown(ph.vaddr), ph.filesz % U32, 0)
  {
    var (space, sz) := Uvmalloc(img.space, img.sz, ph.vaddr + ph.memsz, Flags2Perm(FlagBits(ph.flags)), ok);
    UvmallocCovers(img.space, img.sz, ph.vaddr + ph.memsz, Flags2Perm(FlagBits(ph.flags)), ok);
    forall a | ph.vaddr <= a < sz ensures UserPage(space.pages, a) {
      CoveredMapped(space, sz, a);
    }
    PageAligned(ph.vaddr);
    RangeChunksMapped(space.pages, ph.vaddr, ph.filesz % U32, 0, sz);
  }

  /**
   Map and fill one validated loadable segment: grow the image for it,
   then loadseg its filesz bytes from off, both truncated to 32 bits as
   the `uint` parameters of loadseg are. A short read fails the load.
   */
  function LoadSegment(file: seq<byte>, ph: ProgHeader, img: Image, ok: bool): (r: Result<Image, Error>)
    requires WellFormed(img) && ValidProgHeader(ph) && CheckSegment(ph).None?
    ensures r.Ok? ==> WellFormed(r.value) && r.value.sz == Max(img.sz, ph.vaddr + ph.memsz)
    ensures r.Ok? ==> forall p :: p in img.space.pages ==> p in r.value.space.pages && r.value.space.pages[p] == img.space.pages[p]
  {
    var grown := GrowFor(img, ph, ok);
    if grown.Err? then Err(grown.error)
    else
      var loaded := LoadSeg(grown.value.space, ph.vaddr, file, ph.off % U32, ph.filesz % U32);
      if loaded.None? then Err(ShortRead)
      else Ok(Image(loaded.value, grown.value.sz))
  }

  /**
   The program header loop from header i on: read header i at its
   (wrapped) offset, skip it unless it is loadable, validate it, and load
   it; segmentFails says which segments' allocations run out of memory.
   */
  function LoadSegments(file: seq<byte>, elf: ElfHeader, segmentFails: set<nat>, i: nat, img: Image): (r: Result<Image, Error>)
    requires WellFormed(img)
    ensures r.Ok? ==> WellFormed(r.value) && r.value.sz >= img.sz
    ensures r.Ok? ==> forall p :: p in img.space.pages ==> p in r.value.space.pages && r.value.space.pages[p] == img.space.pages[p]
    decreases elf.phnum - i
  {
    if i >= elf.phnum then Ok(img)
    else
      var bytes := ReadAt(file, HeaderOffset(elf, i), PROGHDR_SIZE);
      if |bytes| != PROGHDR_SIZE then Err(ShortRead)
      else
        var ph := DecodeProgHeader(bytes);
        if ph.kind != ELF_PROG_LOAD then LoadSegments(file, elf, segmentFails, i + 1, img)
        else if CheckSegment(ph).Some? then Err(CheckSegment(ph).value)
        else
          var next := LoadSegment(file, ph, img, i !in segmentFails);
          if next.Err? then Err(next.error)
          else LoadSegments(file, elf, segmentFails, i + 1, next.value)
  }

  /** The space before any segment is loaded: no pages, size 0. */
  function NoSegments(): (img: Image)
    ensures WellFormed(img)
  {
    Image(EmptySpace(), 0)
  }

  /**
   Growing the empty image for the first segment succeeds exactly when
   memory is available and the segment is non-empty and within MAXVA;
   every page it maps carries R, U and the segment's own permission, and
   every byte is zero.
   */
  lemma FirstGrow(ph: ProgHeader, ok: bool)
    requires ValidProgHeader(ph) && CheckSegment(ph).None?
    ensures GrowFor(NoSegments(), ph, ok).Ok? <==> ok && 0 < ph.vaddr + ph.memsz <= MAXVA
    ensures GrowFor(NoSegments(), ph, ok).Ok? ==>
            forall p :: p in GrowFor(NoSegments(), ph, ok).value.space.pages ==>
              GrowFor(NoSegments(), ph, ok).value.space.pages[p] == PTE_R | PTE_U | Flags2Perm(FlagBits(ph.flags))
    ensures GrowFor(NoSegments(), ph, ok).Ok? ==> forall a: nat :: Byte(GrowFor(NoSegments(), ph, ok).value.space.mem, a) == 0
  {
  }

  /**
   The first loadable segment of an image succeeds exactly when memory is
   available, the segment is non-empty and within MAXVA, and the file
   holds its bytes.
   */
  lemma FirstSegmentLoads(file: seq<byte>, ph: ProgHeader, ok: bool)
    requires ValidProgHeader(ph) && CheckSegment(ph).None? && ph.filesz < U32 && ph.off < U32
    ensures LoadSegment(file, ph, NoSegments(), ok).Ok? <==>
            ok && 0 < ph.vaddr + ph.memsz <= MAXVA &&
            (ph.filesz == 0 || (ph.off + ph.filesz <= |file| && ph.off + ph.filesz < U32))
  {
    var grown := GrowFor(NoSegments(), ph, ok);
    FirstGrow(ph, ok);
    if grown.Ok? {
      LoadSegSpec(grown.value.space, ph.vaddr, file, ph.off % U32, ph.filesz % U32);
    }
    Below32(ph.filesz);
    Below32(ph.off);
  }

  /** The pages of the first segment carry R, U and the segment's own permission. */
  lemma FirstSegmentPerms(file: seq<byte>, ph: ProgHeader, ok: bool)
    requires ValidProgHeader(ph) && CheckSegment(ph).None?
    ensures LoadSegment(file, ph, NoSegments(), ok).Ok? ==>
            forall p :: p in LoadSegment(file, ph, NoSegments(), ok).value.space.pages ==>
              LoadSegment(file, ph, NoSegments(), ok).value.space.pages[p] == PTE_R | PTE_U | Flags2Perm(FlagBits(ph.flags))
  {
    FirstGrow(ph, ok);
  }

  /** The first segment holds the file's bytes from the segment's offset on. */
  lemma FirstSegmentContent(file: seq<byte>, ph: ProgHeader, ok: bool)
    requires ValidProgHeader(ph) && CheckSegment(ph).None? && ph.filesz < U32 && ph.off < U32
    ensures LoadSegment(file, ph, NoSegments(), ok).Ok? && ph.filesz > 0 ==>
            ReadBytes(LoadSegment(file, ph, NoSegments(), ok).value.space.mem, ph.vaddr, ph.filesz) == file[ph.off..ph.off + ph.filesz]
  {
    var grown := GrowFor(NoSegments(), ph, ok);
    if grown.Ok? {
      LoadSegSpec(grown.value.space, ph.vaddr, file, ph.off % U32, ph.filesz % U32);
      Below32(ph.filesz);
      Below32(ph.off);
      PageAligned(ph.vaddr);
    }
  }

  /** Past the file's bytes, the first segment is zero up to memsz (.bss). */
  lemma FirstSegmentZeros(file: seq<byte>, ph: ProgHeader, ok: bool)
    requires ValidProgHeader(ph) && CheckSegment(ph).None? && ph.filesz < U32
    ensures LoadSegment(file, ph, NoSegments(), ok).Ok? ==>
            ReadBytes(LoadSegment(file, ph, NoSegments(), ok).value.space.mem, ph.vaddr + ph.filesz, ph.memsz - ph.filesz) == Zeros(ph.memsz - ph.filesz)
  {
    var grown := GrowFor(NoSegments(), ph, ok);
    var r := LoadSegment(file, ph, NoSegments(), ok);
    if r.Ok? {
      FirstGrow(ph, ok);
      LoadSegSpec(grown.value.space, ph.vaddr, file, ph.off % U32, ph.filesz % U32);
      Below32(ph.filesz);
      PageAligned(ph.vaddr);
      forall a: nat | ph.vaddr + ph.filesz <= a < ph.vaddr + ph.filesz + (ph.memsz - ph.filesz)
        ensures Byte(r.value.space.mem, a) == 0
      {
        assert Byte(r.value.space.mem, a) == Byte(grown.value.space.mem, a);
      }
      ReadZeros(r.value.space.mem, ph.vaddr + ph.filesz, ph.memsz - ph.filesz);
    }
  }

  /** n bytes of memory that are all zero read as n zeros. */
  lemma ReadZeros(mem: Memory, va: nat, n: nat)
    requires forall a: nat :: va <= a < va + n ==> Byte(mem, a) == 0
    ensures ReadBytes(mem, va, n) == Zeros(n)
  {
    assert forall k :: 0 <= k < n ==> ReadBytes(mem, va, n)[k] == Byte(mem, va + k);
  }
}
