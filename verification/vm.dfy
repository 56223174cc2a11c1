/**
 The kernel collaborators the loader calls but whose code is not part of
 this model, reduced to small pure contracts in the shape of xv6-riscv's
 vm.c and fs.c:

 - an address space is a page map (page number to PTE permission bits) plus
   the bytes of user memory;
 - `Uvmalloc` grows a space by zero-filled pages, and a per-call flag stands
   for whether the kernel's page allocator had memory left;
 - `Uvmclear` strips user access from one page (the stack guard page);
 - `CopyOut` writes bytes into user pages that are user-accessible and writable;
 - `ReadAt` is a read of an inode's bytes at an offset.
 */
module Vm {
  import opened LittleEndian
  import opened Outcome

  const PGSIZE: nat := 4096

  /** One past the highest virtual address (RISC-V Sv39 as xv6 uses it). */
  const MAXVA: nat := 0x40_0000_0000

  type Pte = bv32

  const PTE_R: Pte := 2
  const PTE_W: Pte := 4
  const PTE_X: Pte := 8
  const PTE_U: Pte := 16

  /**
   User memory as the history of what was stored in it: all zero at first,
   then ranges zero-filled by page allocation and bytes written by loads
   and copies. Only the bytes of mapped pages are meaningful.
   */
  datatype Memory =
    | Zeroed
    | Cleared(under: Memory, lo: nat, hi: nat)
    | Written(under: Memory, va: nat, data: seq<byte>)

  /** The byte at address a: the latest store covering a, or zero. */
  function Byte(mem: Memory, a: nat): byte {
    match mem
    case Zeroed => 0
    case Cleared(under, lo, hi) => if lo <= a < hi then 0 else Byte(under, a)
    case Written(under, va, data) => if va <= a < va + |data| then data[a - va] else Byte(under, a)
  }

  datatype AddrSpace = AddrSpace(pages: map<nat, Pte>, mem: Memory)

  /** The address space `proc_pagetable` creates: no user pages yet. */
  function EmptySpace(): AddrSpace {
    AddrSpace(map[], Zeroed)
  }

  /** PGROUNDUP: the least multiple of PGSIZE that is at least a. */
  function PgRoundUp(a: nat): (r: nat)
    ensures r % PGSIZE == 0
    ensures a <= r < a + PGSIZE
  {
    (a + PGSIZE - 1) / PGSIZE * PGSIZE
  }

  /** The pages of the space are exactly those below size sz. */
  ghost predicate Covers(space: AddrSpace, sz: nat) {
    forall p: nat :: p in space.pages <==> p * PGSIZE < sz
  }

  /** Every mapped page is accessible from user mode. */
  ghost predicate AllUser(space: AddrSpace) {
    forall p :: p in space.pages ==> space.pages[p] & PTE_U != 0
  }

  /** PGROUNDDOWN: the start of the page holding a. */
  function PgRoundDown(a: nat): (r: nat)
    ensures r % PGSIZE == 0 && r <= a < r + PGSIZE
    ensures r / PGSIZE == a / PGSIZE
  {
    a - a % PGSIZE
  }

  /** walkaddr succeeds at va in a page map: the page is mapped and user-accessible. */
  predicate UserPage(pages: map<nat, Pte>, va: nat) {
    va / PGSIZE in pages && pages[va / PGSIZE] & PTE_U != 0
  }

  /** walkaddr succeeds at va. */
  predicate UserMapped(space: AddrSpace, va: nat) {
    UserPage(space.pages, va)
  }

  /** copyout may write at va: the page is mapped, user-accessible and writable. */
  predicate UserWritable(space: AddrSpace, va: nat) {
    UserMapped(space, va) && space.pages[va / PGSIZE] & PTE_W != 0
  }

  /** In a space covering sz with user pages only, every address below sz is user-mapped. */
  lemma CoveredMapped(space: AddrSpace, sz: nat, a: nat)
    requires Covers(space, sz) && AllUser(space) && a < sz
    ensures UserMapped(space, a)
  {
    var p := a / PGSIZE;
    assert p * PGSIZE <= a;
  }

  lemma PageIndex(p: nat, sz: nat)
    ensures p * PGSIZE < sz <==> p < PgRoundUp(sz) / PGSIZE
  {
  }

  /** Rounding up a page-aligned address leaves it where it is. */
  lemma PageAligned(a: nat)
    requires a % PGSIZE == 0
    ensures PgRoundUp(a) == a && PgRoundDown(a) == a
  {
  }

  /**
   uvmalloc(space, oldsz, newsz, xperm): map zero-filled pages from
   PGROUNDUP(oldsz) up to newsz with permission R|U|xperm, and return the
   new size; a request below the current size returns oldsz unchanged.
   It returns 0 when the page allocator runs out (`ok` false) part-way,
   after undoing what it had mapped. A request past MAXVA fails the same
   way: the allocator runs out of physical pages long before that.
   */
  function Uvmalloc(space: AddrSpace, oldsz: nat, newsz: nat, xperm: Pte, ok: bool): (r: (AddrSpace, nat))
    ensures r.1 != 0 ==> r.1 == Max(oldsz, newsz)
    ensures newsz < oldsz ==> r == (space, oldsz)
    ensures r.1 == 0 ==> r.0 == space
    ensures r.1 != 0 && oldsz <= newsz ==>
      forall p: nat :: p in r.0.pages <==>
        p in space.pages || PgRoundUp(oldsz) / PGSIZE <= p < PgRoundUp(newsz) / PGSIZE
  {
    if newsz < oldsz then (space, oldsz)
    else
      var first := PgRoundUp(oldsz) / PGSIZE;
      var last := PgRoundUp(newsz) / PGSIZE;
      if first >= last then (space, newsz)
      else if !ok || newsz > MAXVA then (space, 0)
      else
        var mem := Cleared(space.mem, first * PGSIZE, last * PGSIZE);
        (AddrSpace(MapPages(space.pages, first, last, PTE_R | PTE_U | xperm), mem), newsz)
  }

  /** Growing a space that covers oldsz keeps it covering the new size, with user pages only. */
  lemma UvmallocCovers(space: AddrSpace, oldsz: nat, newsz: nat, xperm: Pte, ok: bool)
    requires Covers(space, oldsz) && AllUser(space)
    ensures Uvmalloc(space, oldsz, newsz, xperm, ok).1 != 0 ==>
            Covers(Uvmalloc(space, oldsz, newsz, xperm, ok).0, Uvmalloc(space, oldsz, newsz, xperm, ok).1) &&
            AllUser(Uvmalloc(space, oldsz, newsz, xperm, ok).0)
  {
    var (s, sz) := Uvmalloc(space, oldsz, newsz, xperm, ok);
    if sz != 0 && oldsz <= newsz {
      forall p: nat
        ensures p in s.pages <==> p * PGSIZE < sz
      {
        PageIndex(p, oldsz);
        PageIndex(p, newsz);
      }
    }
  }

  /**
   uvmalloc zero-fills only pages from PGROUNDUP(oldsz) on, so where memory
   from oldsz up is zero already it reads exactly as before.
   */
  lemma UvmallocBytes(space: AddrSpace, oldsz: nat, newsz: nat, xperm: Pte, ok: bool)
    requires forall a: nat :: oldsz <= a ==> Byte(space.mem, a) == 0
    ensures forall a: nat :: Byte(Uvmalloc(space, oldsz, newsz, xperm, ok).0.mem, a) == Byte(space.mem, a)
  {
    var first := PgRoundUp(oldsz) / PGSIZE;
    assert first * PGSIZE == PgRoundUp(oldsz);
  }

  /** pages with the pages first .. last-1 mapped with permission perm. */
  function MapPages(pages: map<nat, Pte>, first: nat, last: nat, perm: Pte): (r: map<nat, Pte>)
    ensures forall p :: p in r <==> p in pages || first <= p < last
    ensures forall p :: p in r ==> r[p] == if first <= p < last then perm else pages[p]
    decreases last - first
  {
    if first >= last then pages else MapPages(pages[first := perm], first + 1, last, perm)
  }

  /** uvmclear(space, va): the page holding va loses user access. */
  function Uvmclear(space: AddrSpace, va: nat): (r: AddrSpace)
    requires va / PGSIZE in space.pages
    ensures r.pages.Keys == space.pages.Keys && r.mem == space.mem
    ensures r.pages[va / PGSIZE] & PTE_U == 0
    ensures forall p :: p in space.pages && p != va / PGSIZE ==> r.pages[p] == space.pages[p]
  {
    var p := va / PGSIZE;
    space.(pages := space.pages[p := space.pages[p] & !PTE_U])
  }

  /** Memory after writing data at va. */
  function WriteBytes(mem: Memory, va: nat, data: seq<byte>): (m: Memory)
    ensures forall a: nat :: va <= a < va + |data| ==> Byte(m, a) == data[a - va]
    ensures forall a: nat :: a < va || va + |data| <= a ==> Byte(m, a) == Byte(mem, a)
  {
    Written(mem, va, data)
  }

  /** The n bytes of memory starting at va. */
  function ReadBytes(mem: Memory, va: nat, n: nat): (r: seq<byte>)
    ensures |r| == n
    ensures forall j {:trigger r[j]} :: 0 <= j < n ==> r[j] == Byte(mem, va + j)
    decreases n
  {
    if n == 0 then [] else [Byte(mem, va)] + ReadBytes(mem, va + 1, n - 1)
  }

  /** A slice of a read is the read of the slice. */
  lemma ReadSlice(mem: Memory, va: nat, n: nat, i: nat, m: nat)
    requires i + m <= n
    ensures ReadBytes(mem, va, n)[i..i + m] == ReadBytes(mem, va + i, m)
  {
  }

  lemma ReadWritten(mem: Memory, va: nat, data: seq<byte>)
    ensures ReadBytes(WriteBytes(mem, va, data), va, |data|) == data
  {
  }

  /** A write leaves every range it does not overlap as it was. */
  lemma ReadUntouched(mem: Memory, va: nat, data: seq<byte>, a: nat, n: nat)
    requires a + n <= va || va + |data| <= a
    ensures ReadBytes(WriteBytes(mem, va, data), a, n) == ReadBytes(mem, a, n)
  {
  }

  /** copyout: write data at va, or fail if some byte lands outside the user's writable pages. */
  function CopyOut(space: AddrSpace, va: nat, data: seq<byte>): (r: Option<AddrSpace>)
    ensures r.Some? <==> forall a :: va <= a < va + |data| ==> UserWritable(space, a)
    ensures r.Some? ==> r.value == space.(mem := WriteBytes(space.mem, va, data))
  {
    if forall a | va <= a < va + |data| :: UserWritable(space, a)
    then Some(space.(mem := WriteBytes(space.mem, va, data)))
    else None
  }

  /**
   readi(ip, off, n) on an inode holding file: up to n bytes from offset off,
   fewer at the end of the file, none past its end or when off + n
   overflows the 32-bit offset type. ReadAtContent says which bytes.
   */
  function ReadAt(file: seq<byte>, off: nat, n: nat): (r: seq<byte>)
    ensures |r| <= n
    ensures |r| == n <==> n == 0 || (off + n <= |file| && off + n < U32)
    ensures off <= |file| && off + n < U32 ==> |r| == Min(n, |file| - off)
    ensures r == [] || off + |r| <= |file|
  {
    if off > |file| || off + n >= U32 then []
    else Slice(file, off, Min(off + n, |file|))
  }

  /** The bytes readi returns are the file's bytes from off on. */
  lemma ReadAtContent(file: seq<byte>, off: nat, n: nat)
    ensures forall k :: 0 <= k < |ReadAt(file, off, n)| ==> ReadAt(file, off, n)[k] == file[off + k]
  {
    if off <= |file| && off + n < U32 {
      SliceContent(file, off, Min(off + n, |file|));
    }
  }

  /** The bytes of s from lo up to hi, copied one at a time. */
  function Slice(s: seq<byte>, lo: nat, hi: nat): (r: seq<byte>)
    requires lo <= hi <= |s|
    ensures |r| == hi - lo
    decreases hi - lo
  {
    if lo == hi then [] else [s[lo]] + Slice(s, lo + 1, hi)
  }

  /** Byte k of the copy is byte lo + k of s. */
  lemma {:induction false} SliceContent(s: seq<byte>, lo: nat, hi: nat)
    requires lo <= hi <= |s|
    ensures forall k :: 0 <= k < hi - lo ==> Slice(s, lo, hi)[k] == s[lo + k]
    decreases hi - lo
  {
    if lo < hi {
      SliceContent(s, lo + 1, hi);
      assert forall k :: 1 <= k < hi - lo ==> Slice(s, lo, hi)[k] == Slice(s, lo + 1, hi)[k - 1];
    }
  }

  /** The copy is the subsequence. */
  lemma SliceIsSubsequence(s: seq<byte>, lo: nat, hi: nat)
    requires lo <= hi <= |s|
    ensures Slice(s, lo, hi) == s[lo..hi]
  {
    SliceContent(s, lo, hi);
  }
}
