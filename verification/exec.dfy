/**
 kexec as a whole (kernel/exec.c:22-193): resolve "#!" scripts to an ELF
 image, build a fresh address space from its segments, set up the user
 stack, name the process after the last component of the path, and only
 then replace the caller's image. Any failure leaves the caller as it was.
 */
module Exec {
  import opened LittleEndian
  import opened Outcome
  import opened ExecTypes
  import opened Elf
  import opened Vm
  import opened Shebang
  import opened Segments
  import opened UserStack
  import opened SegmentBytes

  /** The size of a user pointer, one uint64 on the stack. */
  const WORD: nat := 8

  /** The parts of a process kexec replaces: image, size, and the trapframe's epc, sp and a1. */
  datatype Proc = Proc(space: AddrSpace, sz: nat, epc: nat, sp: nat, a1: nat, name: seq<byte>)

  /** What kexec returns, the process after it, and the caller's argv array after it. */
  datatype ExecResult = ExecResult(ret: int, proc: Proc, argv: seq<CStr>)

  /** Where the last component of the first n bytes of path starts: just after their last '/', or at 0. */
  function BaseStart(path: Path, n: nat): (k: nat)
    requires n <= |path|
    ensures k <= n
    ensures forall i :: k <= i < n ==> path[i] != SLASH
    ensures k > 0 ==> path[k - 1] == SLASH
  {
    if n == 0 then 0
    else if path[n - 1] == SLASH then n
    else BaseStart(path, n - 1)
  }

  /** The part of path after its last '/', or all of it. */
  function Basename(path: Path): (b: Path)
    ensures |b| <= |path| && b == path[|path| - |b|..]
    ensures forall i :: 0 <= i < |b| ==> b[i] != SLASH
    ensures |b| < |path| ==> path[|path| - |b| - 1] == SLASH
  {
    path[BaseStart(path, |path|)..]
  }

  /** The name safestrcpy leaves in p->name: at most NAME_LEN - 1 bytes of the basename. */
  function ProcName(path: Path): (name: seq<byte>)
    ensures |name| < NAME_LEN && name <= Basename(path)
    ensures |Basename(path)| < NAME_LEN ==> name == Basename(path)
  {
    var b := Basename(path);
    Truncated(b)
  }

  /** At most the first NAME_LEN - 1 bytes of b, what fits p->name with its NUL. */
  function Truncated(b: seq<byte>): (t: seq<byte>)
    ensures |t| < NAME_LEN && t <= b
    ensures |b| < NAME_LEN ==> t == b
  {
    b[..Min(|b|, NAME_LEN - 1)]
  }

  /** Where the last component starts depends only on the bytes before n. */
  lemma {:induction false} BaseStartPrefix(p: Path, q: Path, n: nat)
    requires n <= |p| && n <= |q|
    requires forall i :: 0 <= i < n ==> p[i] == q[i]
    ensures BaseStart(p, n) == BaseStart(q, n)
  {
    if n > 0 {
      BaseStartPrefix(p, q, n - 1);
    }
  }

  /** Basename grows with each byte and restarts after each '/'. */
  lemma BasenameSnoc(p: Path, c: byte)
    ensures Basename(p + [c]) == if c == SLASH then [] else Basename(p) + [c]
  {
    var q := p + [c];
    if c != SLASH {
      BaseStartPrefix(p, q, |p|);
      assert q[BaseStart(p, |p|)..] == p[BaseStart(p, |p|)..] + [c];
    }
  }

  /** The copy of exec.c:174: at most 15 bytes of what the walk found. */
  method NameOf(path: Path) returns (name: seq<byte>)
    ensures name == ProcName(path)
  {
    var last := LastComponent(path);
    name := Truncated(path[last..]);
  }

  /** The pointer walk of exec.c:171-173: remember the byte after each '/'. */
  method LastComponent(path: Path) returns (last: nat)
    ensures last <= |path| && path[last..] == Basename(path)
  {
    last := 0;
    var s := 0;
    while s < |path|
      invariant 0 <= last <= s <= |path|
      invariant last == BaseStart(path, s)
    {
      if path[s] == SLASH {
        last := s + 1;
      }
      s := s + 1;
    }
  }

  /**
   The argv that main(argc, argv) finds: the words at sp are pointers, word
   k < |argv| points at argv[k] and its NUL, and word |argv| is zero.
   */
  ghost predicate ArgvAt(mem: Memory, sp: nat, argv: seq<CStr>) {
    && Decode(ReadBytes(mem, sp + 8 * |argv|, WORD)) == 0
    && forall k :: 0 <= k < |argv| ==> PointsTo(mem, sp, k, argv[k])
  }

  /** Word k at sp holds the address of s followed by its NUL. */
  ghost predicate PointsTo(mem: Memory, sp: nat, k: nat, s: CStr) {
    ReadBytes(mem, Decode(ReadBytes(mem, sp + 8 * k, WORD)), |s| + 1) == Terminated(s)
  }

  /** Word k of an encoding of ws, named by its bytes. */
  lemma WordOfEncoding(w: seq<byte>, enc: seq<byte>, ws: seq<nat>, k: nat)
    requires forall i :: 0 <= i < |ws| ==> ws[i] < U64
    requires k < |ws| && enc == EncodeWords(ws) && w == enc[8 * k..8 * k + 8]
    ensures Decode(w) == ws[k]
  {
    EncodeWordsReadBack(ws, k);
  }

  /** Word k of the bytes at sp, given that those bytes encode ws. */
  lemma WordAt(mem: Memory, sp: nat, ws: seq<nat>, k: nat)
    requires forall i :: 0 <= i < |ws| ==> ws[i] < U64
    requires k < |ws| && ReadBytes(mem, sp, 8 * |ws|) == EncodeWords(ws)
    ensures Decode(ReadBytes(mem, sp + 8 * k, WORD)) == ws[k]
  {
    var enc := EncodeWords(ws);
    WordInside(k, |ws|);
    EightBytes(mem, sp, enc, 8 * k);
    WordOfEncoding(ReadBytes(mem, sp + 8 * k, WORD), enc, ws, k);
  }

  /** Eight bytes at offset off of a range that reads as bs are those of bs. */
  lemma EightBytes(mem: Memory, sp: nat, bs: seq<byte>, off: nat)
    requires off + 8 <= |bs| && ReadBytes(mem, sp, |bs|) == bs
    ensures ReadBytes(mem, sp + off, WORD) == bs[off..off + 8]
  {
    ReadSlice(mem, sp, |bs|, off, 8);
  }

  /** Word k of n ends inside the n words. */
  lemma WordInside(k: nat, n: nat)
    requires k < n
    ensures 8 * k + 8 <= 8 * n
  {
  }

  /** The pointer words with their terminator stay below 2^64. */
  lemma TerminatedWords(ustack: seq<nat>)
    requires forall k :: 0 <= k < |ustack| ==> ustack[k] < U64
    ensures forall i :: 0 <= i < |ustack + [0]| ==> (ustack + [0])[i] < U64
  {
  }

  /** Word k at sp points at argv[k] and its NUL. */
  lemma PointerAt(mem: Memory, sp: nat, argv: seq<CStr>, ustack: seq<nat>, k: nat)
    requires |ustack| == |argv| && forall k :: 0 <= k < |ustack| ==> ustack[k] < U64
    requires ReadBytes(mem, sp, 8 * (|argv| + 1)) == EncodeWords(ustack + [0])
    requires forall k :: 0 <= k < |argv| ==> ReadBytes(mem, ustack[k], |argv[k]| + 1) == Terminated(argv[k])
    requires k < |argv|
    ensures PointsTo(mem, sp, k, argv[k])
  {
    TerminatedWords(ustack);
    WordAt(mem, sp, ustack + [0], k);
    assert (ustack + [0])[k] == ustack[k];
  }

  /** The word after the pointers is zero. */
  lemma ZeroWordAt(mem: Memory, sp: nat, ustack: seq<nat>)
    requires forall k :: 0 <= k < |ustack| ==> ustack[k] < U64
    requires ReadBytes(mem, sp, 8 * (|ustack| + 1)) == EncodeWords(ustack + [0])
    ensures Decode(ReadBytes(mem, sp + 8 * |ustack|, WORD)) == 0
  {
    TerminatedWords(ustack);
    WordAt(mem, sp, ustack + [0], |ustack|);
  }

  /** Pointers encoded at sp to NUL-terminated copies of the strings make argv what main sees. */
  lemma PointersGiveArgv(mem: Memory, sp: nat, argv: seq<CStr>, ustack: seq<nat>)
    requires |ustack| == |argv| && forall k :: 0 <= k < |ustack| ==> ustack[k] < U64
    requires ReadBytes(mem, sp, 8 * (|argv| + 1)) == EncodeWords(ustack + [0])
    requires forall k :: 0 <= k < |argv| ==> ReadBytes(mem, ustack[k], |argv[k]| + 1) == Terminated(argv[k])
    ensures ArgvAt(mem, sp, argv)
  {
    ZeroWordAt(mem, sp, ustack);
    AllPointers(mem, sp, argv, ustack);
    ArgvFromWords(mem, sp, argv, |ustack|);
  }

  /** The terminator word and the pointer words together are argv. */
  lemma ArgvFromWords(mem: Memory, sp: nat, argv: seq<CStr>, n: nat)
    requires n == |argv| && Decode(ReadBytes(mem, sp + 8 * n, WORD)) == 0
    requires forall k :: 0 <= k < |argv| ==> PointsTo(mem, sp, k, argv[k])
    ensures ArgvAt(mem, sp, argv)
  {
  }

  /** Every word below the terminator points at its string. */
  lemma AllPointers(mem: Memory, sp: nat, argv: seq<CStr>, ustack: seq<nat>)
    requires |ustack| == |argv| && forall k :: 0 <= k < |ustack| ==> ustack[k] < U64
    requires ReadBytes(mem, sp, 8 * (|argv| + 1)) == EncodeWords(ustack + [0])
    requires forall k :: 0 <= k < |argv| ==> ReadBytes(mem, ustack[k], |argv[k]| + 1) == Terminated(argv[k])
    ensures forall k :: 0 <= k < |argv| ==> PointsTo(mem, sp, k, argv[k])
  {
    forall k | 0 <= k < |argv|
      ensures PointsTo(mem, sp, k, argv[k])
    {
      PointerAt(mem, sp, argv, ustack, k);
    }
  }

  /** A successful stack setup hands main exactly argv. */
  lemma StackHoldsArgv(img: Image, argv: seq<CStr>, ok: bool)
    requires WellFormed(img)
    ensures SetupStack(img, argv, ok).Ok? ==> ArgvAt(SetupStack(img, argv, ok).value.space.mem, SetupStack(img, argv, ok).value.sp, argv)
  {
    StackContents(img, argv, ok);
    var r := SetupStack(img, argv, ok);
    if r.Ok? {
      ArgvOfStack(r.value, argv);
    }
  }

  /** A stack holding argv as pointers and strings is what main reads as argv. */
  lemma ArgvOfStack(st: StackImage, argv: seq<CStr>)
    requires HoldsArgv(st, argv)
    ensures ArgvAt(st.space.mem, st.sp, argv)
  {
    PointersGiveArgv(st.space.mem, st.sp, argv, st.ustack);
  }

  /**
   Build the new image of a resolved ELF file: a page table, the segments,
   the stack. Nothing of the calling process is touched yet. Below the
   stack, the image reads as the file's loadable segments written in
   header order over zeroes.
   */
  function BuildImage(env: Env, res: Resolution): (r: Result<StackImage, Error>)
    requires res.Resolved? && |res.image| >= ELFHDR_SIZE
    ensures r.Ok? ==> ArgvAt(r.value.space.mem, r.value.sp, res.argv) && r.value.argc == |res.argv|
    ensures r.Ok? ==> Covers(r.value.space, r.value.sz) && r.value.sz <= MAXVA && r.value.sp < r.value.sz && r.value.sp % 16 == 0
    ensures r.Ok? ==> forall a: nat :: a < r.value.sz - (USERSTACK + 1) * PGSIZE ==>
      Byte(r.value.space.mem, a) == Byte(ProgramImage(res.image), a)
  {
    if env.alloc.pagetableFails then Err(OutOfMemory)
    else
      var elf := ElfOf(res.image);
      LoadSegmentsBytes(res.image, elf, env.alloc.segmentFails, 0, NoSegments());
      var loaded := LoadSegments(res.image, elf, env.alloc.segmentFails, 0, NoSegments());
      if loaded.Err? then Err(loaded.error)
      else
        StackHoldsArgv(loaded.value, res.argv, !env.alloc.stackFails);
        StackFrame(loaded.value, res.argv, !env.alloc.stackFails);
        SetupStack(loaded.value, res.argv, !env.alloc.stackFails)
  }

  /**
   The process after a successful kexec of the resolved image res: it
   starts at the ELF entry point, is named after the last component of the
   path, has a1 == sp pointing at argv on a 16-byte aligned stack inside
   its image, and below the stack reads as the program's segments.
   */
  ghost predicate Runs(p: Proc, argv: seq<CStr>, res: Resolution)
    requires res.Resolved?
  {
    && |res.image| >= ELFHDR_SIZE
    && p.epc == ElfOf(res.image).entry
    && p.name == ProcName(res.path)
    && p.a1 == p.sp && p.sp % 16 == 0 && p.sp < p.sz <= MAXVA
    && Covers(p.space, p.sz)
    && ArgvAt(p.space.mem, p.sp, argv)
    && forall a: nat :: a < p.sz - (USERSTACK + 1) * PGSIZE ==> Byte(p.space.mem, a) == Byte(ProgramImage(res.image), a)
  }

  /** The process kexec commits to: the built image, its entry point, and the name from the path. */
  function Commit(s: StackImage, res: Resolution): (p: Proc)
    requires res.Resolved? && |res.image| >= ELFHDR_SIZE
    ensures p.space == s.space && p.sz == s.sz && p.sp == s.sp && p.a1 == s.sp
    ensures p.epc == ElfOf(res.image).entry && p.name == ProcName(res.path)
  {
    Proc(s.space, s.sz, ElfOf(res.image).entry, s.sp, s.sp, ProcName(res.path))
  }

  /** Committing a built image gives a process that runs it. */
  lemma BuiltRuns(env: Env, res: Resolution)
    requires res.Resolved? && |res.image| >= ELFHDR_SIZE
    ensures BuildImage(env, res).Ok? ==> Runs(Commit(BuildImage(env, res).value, res), res.argv, res)
  {
    var built := BuildImage(env, res);
    if built.Ok? {
      var p := Commit(built.value, res);
      assert ArgvAt(p.space.mem, p.sp, res.argv);
      assert forall a: nat :: a < p.sz - (USERSTACK + 1) * PGSIZE ==> Byte(p.space.mem, a) == Byte(ProgramImage(res.image), a);
    }
  }

  /**
   kexec(path, argv) for process proc. argv holds the caller's strings
   before the null slot, so fewer than MAXARG of them. On failure it
   returns -1 and the process is unchanged; on success it returns argc and
   the process runs the resolved image from its entry point with argv on
   its stack. Either way the caller's argv array may have gained the
   interpreters of the scripts followed.
   */
  function Kexec(env: Env, proc: Proc, path: Path, argv: seq<CStr>): (r: ExecResult)
    requires |argv| < MAXARG
    requires NulFree(path) && forall k :: 0 <= k < |argv| ==> NulFree(argv[k])
    ensures r.argv == Resolve(env, path, argv, 0).argv
    ensures r.ret == -1 || r.ret == |r.argv|
    ensures r.ret == -1 ==> r.proc == proc
    ensures r.ret >= 0 ==> Resolve(env, path, argv, 0).Resolved? && Runs(r.proc, r.argv, Resolve(env, path, argv, 0))
  {
    ResolvedImage(env, path, argv, 0);
    var res := Resolve(env, path, argv, 0);
    if res.Failed? then ExecResult(-1, proc, res.argv)
    else
      var built := BuildImage(env, res);
      if built.Err? then ExecResult(-1, proc, res.argv)
      else
        BuiltRuns(env, res);
        ExecResult(built.value.argc, Commit(built.value, res), res.argv)
  }

  /**
   A script whose interpreter string cannot be allocated: kexec fails, and
   the caller's one-string argv has become that string twice, because the
   shift of exec.c:92-94 happens before the allocation of exec.c:96-100.
   */
  lemma ScriptAllocFailureDoublesArgv(env: Env, proc: Proc, script: Path, interp: Path, a0: CStr)
    requires script in env.files && Nameable(interp) && env.files[script] == ScriptFile(interp)
    requires 0 in env.alloc.interpFails
    requires NulFree(script) && NulFree(a0)
    ensures Kexec(env, proc, script, [a0]).ret == -1
    ensures Kexec(env, proc, script, [a0]).argv == [a0, a0]
  {
    ScriptFileNames(interp);
    assert [a0][0] == a0 && [a0] + [a0] == [a0, a0];
  }

  /**
   An example with two loadable segments, 4096 bytes at 0x1000 and 10
   bytes at 0x2000: both load, the image ends at 0x200a, and memory reads as the two
   segments written over zeroes.
   */
  lemma TwoSegmentsLoad(file: seq<byte>, ph1: ProgHeader, ph2: ProgHeader)
    requires ValidProgHeader(ph1) && ph1.vaddr == 0x1000 && ph1.filesz == 0x1000 && ph1.memsz == 0x1000
    requires ValidProgHeader(ph2) && ph2.vaddr == 0x2000 && ph2.filesz == 10 && ph2.memsz == 10
    requires ph1.off + 0x1000 <= |file| && ph2.off + 10 <= |file| && |file| < U32
    ensures LoadSegment(file, ph1, NoSegments(), true).Ok?
    ensures LoadSegment(file, ph1, NoSegments(), true).value.sz == 0x2000
    ensures LoadSegment(file, ph2, LoadSegment(file, ph1, NoSegments(), true).value, true).Ok?
    ensures LoadSegment(file, ph2, LoadSegment(file, ph1, NoSegments(), true).value, true).value.sz == 0x200a
    ensures Loaded(file, ph1) && Loaded(file, ph2)
    ensures SameBytes(LoadSegment(file, ph2, LoadSegment(file, ph1, NoSegments(), true).value, true).value.space.mem,
                      Overlay(Zeroed, file, [ph1, ph2]))
  {
    FirstSegmentLoads(file, ph1, true);
    assert Clean(NoSegments());
    var img1 := LoadSegment(file, ph1, NoSegments(), true).value;
    LoadSegmentBytes(file, ph1, NoSegments(), true);
    SecondSegmentLoads(file, ph2, img1);
    var img2 := LoadSegment(file, ph2, img1, true).value;
    LoadSegmentBytes(file, ph2, img1, true);
    TwoOverlay(img1.space.mem, img2.space.mem, file, ph1, ph2);
  }

  /** The same example: in that two-segment image each segment holds its file bytes: the second does not reach below 0x2000. */
  lemma TwoSegmentsBytes(mem: Memory, file: seq<byte>, ph1: ProgHeader, ph2: ProgHeader)
    requires ph1.vaddr == 0x1000 && ph1.filesz == 0x1000 && ph1.off < U32
    requires ph2.vaddr == 0x2000 && ph2.filesz == 10 && ph2.off < U32
    requires ph1.off + ph1.filesz <= |file| && ph2.off + ph2.filesz <= |file|
    requires Loaded(file, ph1) && Loaded(file, ph2)
    requires SameBytes(mem, Overlay(Zeroed, file, [ph1, ph2]))
    ensures ReadBytes(mem, ph1.vaddr, ph1.filesz) == file[ph1.off..ph1.off + ph1.filesz]
    ensures ReadBytes(mem, ph2.vaddr, ph2.filesz) == file[ph2.off..ph2.off + ph2.filesz]
  {
    var hs := [ph1, ph2];
    assert hs[1..] == [ph2] && hs[2..] == [];
    SegmentInImage(mem, file, hs, 0);
    SegmentInImage(mem, file, hs, 1);
  }

  /** Two segments loaded one after the other read as their overlay on zeroes. */
  lemma TwoOverlay(m1: Memory, m2: Memory, file: seq<byte>, ph1: ProgHeader, ph2: ProgHeader)
    requires SameBytes(m1, Written(Zeroed, ph1.vaddr, SegmentData(file, ph1)))
    requires SameBytes(m2, Written(m1, ph2.vaddr, SegmentData(file, ph2)))
    ensures SameBytes(m2, Overlay(Zeroed, file, [ph1, ph2]))
  {
    var w1 := Written(Zeroed, ph1.vaddr, SegmentData(file, ph1));
    var w2 := Written(w1, ph2.vaddr, SegmentData(file, ph2));
    assert [ph1, ph2][1..] == [ph2] && [ph2][1..] == [];
    assert Overlay(w2, file, []) == w2;
    assert Overlay(w1, file, [ph2]) == w2;
    assert Overlay(Zeroed, file, [ph1, ph2]) == w2;
    forall a: nat ensures Byte(Written(m1, ph2.vaddr, SegmentData(file, ph2)), a) == Byte(Written(w1, ph2.vaddr, SegmentData(file, ph2)), a) {
    }
  }

  /** The second segment loads over the first: the file holds it and memory is available. */
  lemma SecondSegmentLoads(file: seq<byte>, ph2: ProgHeader, img1: Image)
    requires WellFormed(img1) && img1.sz == 0x2000
    requires ValidProgHeader(ph2) && ph2.vaddr == 0x2000 && ph2.filesz == 10 && ph2.memsz == 10
    requires ph2.off + 10 <= |file| && |file| < U32
    ensures LoadSegment(file, ph2, img1, true).Ok?
  {
    var grown := GrowFor(img1, ph2, true);
    Below32(ph2.off);
    LoadSegSpec(grown.value.space, ph2.vaddr, file, ph2.off % U32, ph2.filesz % U32);
  }

  /**
   The same example, continued: the stack above that image starts at PGROUNDUP(0x200a) = 0x3000,
   the guard page is 0x3000-0x3fff, the image ends at 0x5000, and sp lies
   inside the stack page.
   */
  lemma TwoSegmentsStack(img: Image, a0: CStr)
    requires WellFormed(img) && img.sz == 0x200a && |a0| < 64
    ensures SetupStack(img, [a0], true).Ok?
    ensures SetupStack(img, [a0], true).value.sz == 0x5000
    ensures 0x4000 <= SetupStack(img, [a0], true).value.sp < 0x5000
  {
    assert PgRoundUp(img.sz) == 0x3000;
    OneArgumentFits(img, a0);
  }

}
