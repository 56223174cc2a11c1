/**
 The user stack of a new process image (kernel/exec.c:137-167): two pages
 above the program, the lower one a guard page without user access; the
 argument strings are pushed from the top, each 16-byte aligned, followed
 by the NULL-terminated array of pointers to them.
 */
module UserStack {
  import opened LittleEndian
  import opened Outcome
  import opened ExecTypes
  import opened Vm
  import opened Segments


  /** The stack pages just mapped: sp and stackbase are the top and bottom of the usable page. */
  datatype Stack = Stack(space: AddrSpace, sz: nat, stackbase: nat)

  /** Bytes of a C string in memory, terminator included. */
  function Terminated(s: CStr): seq<byte> {
    s + [NUL]
  }

  /** The address space of s is unchanged below its own size except for fresh pages at the top. */
  ghost predicate Extends(space: AddrSpace, sz: nat, space': AddrSpace) {
    forall p :: p in space.pages && p * PGSIZE < sz ==> p in space'.pages && space'.pages[p] == space.pages[p]
  }

  /**
   Round the program size up to a page, map USERSTACK + 1 writable pages
   above it, and take user access away from the lowest of them, the guard
   page. Fails when the page allocator runs out (ok false) or the stack
   would end past MAXVA.
   */
  function AllocStack(img: Image, ok: bool): (r: Result<Stack, Error>)
    requires WellFormed(img)
    ensures r.Err? <==> !ok || PgRoundUp(img.sz) + (USERSTACK + 1) * PGSIZE > MAXVA
    ensures r.Ok? ==> r.value.sz == PgRoundUp(img.sz) + (USERSTACK + 1) * PGSIZE <= MAXVA
    ensures r.Ok? ==> r.value.stackbase == r.value.sz - USERSTACK * PGSIZE
    ensures r.Ok? ==> Covers(r.value.space, r.value.sz)
    ensures r.Ok? ==> Extends(img.space, img.sz, r.value.space)
    ensures r.Ok? ==> PgRoundUp(img.sz) / PGSIZE in r.value.space.pages
    ensures r.Ok? ==> r.value.space.pages[PgRoundUp(img.sz) / PGSIZE] & PTE_U == 0
    ensures r.Ok? ==> forall a :: r.value.stackbase <= a < r.value.sz ==> UserWritable(r.value.space, a)
  {
    var base := PgRoundUp(img.sz);
    StackPages(img, ok);
    var (space, sz) := StackAlloc(img, ok);
    if sz == 0 then Err(OutOfMemory)
    else
      var guarded := Uvmclear(space, sz - (USERSTACK + 1) * PGSIZE);
      GuardedStack(img, base, space, sz, guarded);
      Ok(Stack(guarded, sz, sz - USERSTACK * PGSIZE))
  }

  /** The USERSTACK + 1 pages from page lo on are mapped readable, writable and user-accessible. */
  ghost predicate StackPerms(pages: map<nat, Pte>, lo: nat) {
    forall p :: lo <= p < lo + USERSTACK + 1 ==> p in pages && pages[p] == PTE_R | PTE_U | PTE_W
  }

  /** The call of exec.c:140: USERSTACK + 1 writable pages from the rounded-up program size on. */
  function StackAlloc(img: Image, ok: bool): (AddrSpace, nat) {
    var base := PgRoundUp(img.sz);
    Uvmalloc(img.space, base, base + (USERSTACK + 1) * PGSIZE, PTE_W, ok)
  }

  /**
   The two pages above the rounded-up program size are new pages: the call
   fails exactly when the allocator fails or they end past MAXVA, and
   otherwise maps the program's pages and those two.
   */
  lemma StackPages(img: Image, ok: bool)
    requires WellFormed(img)
    ensures StackAlloc(img, ok).1 == 0 <==> !ok || PgRoundUp(img.sz) + (USERSTACK + 1) * PGSIZE > MAXVA
    ensures StackAlloc(img, ok).1 != 0 ==>
      forall p: nat :: p in StackAlloc(img, ok).0.pages <==>
        p in img.space.pages || PgRoundUp(img.sz) / PGSIZE <= p < PgRoundUp(img.sz) / PGSIZE + USERSTACK + 1
    ensures StackAlloc(img, ok).1 != 0 ==> StackPerms(StackAlloc(img, ok).0.pages, PgRoundUp(img.sz) / PGSIZE)
    ensures StackAlloc(img, ok).1 != 0 ==>
      forall p :: p in img.space.pages ==> StackAlloc(img, ok).0.pages[p] == img.space.pages[p]
  {
    var base := PgRoundUp(img.sz);
    PageAligned(base);
    assert PgRoundUp(base + (USERSTACK + 1) * PGSIZE) == base + (USERSTACK + 1) * PGSIZE by {
      PageAligned(base + (USERSTACK + 1) * PGSIZE);
    }
  }

  /** The guard page cleared, the space covers the stack and the page above the guard is user-writable. */
  lemma GuardedStack(img: Image, base: nat, space: AddrSpace, sz: nat, guarded: AddrSpace)
    requires WellFormed(img) && base == PgRoundUp(img.sz) && sz == base + (USERSTACK + 1) * PGSIZE
    requires forall p: nat :: p in space.pages <==> p in img.space.pages || base / PGSIZE <= p < base / PGSIZE + USERSTACK + 1
    requires StackPerms(space.pages, base / PGSIZE)
    requires forall p :: p in img.space.pages ==> space.pages[p] == img.space.pages[p]
    requires base / PGSIZE in space.pages && guarded == Uvmclear(space, base)
    ensures Covers(guarded, sz) && Extends(img.space, img.sz, guarded)
    ensures forall a :: sz - USERSTACK * PGSIZE <= a < sz ==> UserWritable(guarded, a)
  {
    forall p: nat
      ensures p in guarded.pages <==> p * PGSIZE < sz
    {
      PageIndex(p, img.sz);
    }
    forall a | sz - USERSTACK * PGSIZE <= a < sz
      ensures UserWritable(guarded, a)
    {
      assert a / PGSIZE == base / PGSIZE + 1;
    }
  }

  /** Strings argv[k] for k < |ustack| sit NUL-terminated at ustack[k], each at or above lo. */
  ghost predicate Stored(mem: Memory, argv: seq<CStr>, ustack: seq<nat>, lo: int) {
    |ustack| <= |argv| &&
    forall k :: 0 <= k < |ustack| ==>
      lo <= ustack[k] && ReadBytes(mem, ustack[k], |argv[k]| + 1) == Terminated(argv[k])
  }

  /** The stack after the strings are pushed: memory, stack pointer, and where each string went. */
  datatype Pushed = Pushed(space: AddrSpace, sp: int, ustack: seq<nat>)

  /** Round an address down to a multiple of 16, as `sp -= sp % 16` does. */
  function Align16(a: int): (r: int)
    ensures r % 16 == 0 && r <= a < r + 16
  {
    a - a % 16
  }

  /**
   The string loop from argc on: refuse a (MAXARG+1)th string, move sp down
   by the string and its NUL and align it, refuse to go below stackbase,
   and copy the string out, remembering its address in ustack.
   */
  function PushStrings(space: AddrSpace, sp: int, stackbase: nat, argv: seq<CStr>, argc: nat, ustack: seq<nat>): (r: Result<Pushed, Error>)
    requires argc <= |argv| && argc <= MAXARG && |ustack| == argc && stackbase <= sp
    ensures r.Ok? ==> |r.value.ustack| == |argv| <= MAXARG && r.value.ustack[..argc] == ustack
    ensures r.Ok? ==> r.value.space.pages == space.pages
    ensures r.Ok? ==> stackbase <= r.value.sp <= sp
    ensures r.Ok? && argc < |argv| ==> r.value.sp % 16 == 0
    decreases |argv| - argc
  {
    if argc == |argv| then Ok(Pushed(space, sp, ustack))
    else if argc >= MAXARG then Err(TooManyArguments)
    else
      var sp' := NextSp(sp, argv[argc]);
      if sp' < stackbase then Err(ArgumentsTooLarge)
      else
        var out := CopyOut(space, sp', Terminated(argv[argc]));
        if out.None? then Err(BadAddress)
        else PushStrings(out.value, sp', stackbase, argv, argc + 1, ustack + [sp'])
  }

  /** Strings already on the stack stay readable, and each new one is stored below the last. */
  lemma {:induction false} PushStringsStored(space: AddrSpace, sp: int, stackbase: nat, argv: seq<CStr>, argc: nat, ustack: seq<nat>)
    requires argc <= |argv| && argc <= MAXARG && |ustack| == argc && stackbase <= sp
    requires Stored(space.mem, argv, ustack, sp)
    ensures PushStrings(space, sp, stackbase, argv, argc, ustack).Ok? ==>
      Stored(PushStrings(space, sp, stackbase, argv, argc, ustack).value.space.mem, argv,
             PushStrings(space, sp, stackbase, argv, argc, ustack).value.ustack,
             PushStrings(space, sp, stackbase, argv, argc, ustack).value.sp)
    decreases |argv| - argc
  {
    if PushesOne(space, sp, stackbase, argv, argc) {
      var sp' := NextSp(sp, argv[argc]);
      var space' := space.(mem := WriteBytes(space.mem, sp', Terminated(argv[argc])));
      PushOne(space, sp, stackbase, argv, argc, ustack);
      StoredAfterPush(space.mem, argv, ustack, sp, sp');
      PushStringsStored(space', sp', stackbase, argv, argc + 1, ustack + [sp']);
    }
  }

  /** Where the string loop puts s below sp: room for s and its NUL, rounded down to 16. */
  function NextSp(sp: int, s: CStr): (r: int)
    ensures r % 16 == 0 && r + |s| + 1 <= sp < r + |s| + 17
  {
    Align16(sp - |Terminated(s)|)
  }

  /** Whether the string loop at argc pushes a string and goes on, rather than stopping. */
  predicate PushesOne(space: AddrSpace, sp: int, stackbase: nat, argv: seq<CStr>, argc: nat)
    requires argc <= |argv|
  {
    && argc < |argv| && argc < MAXARG
    && NextSp(sp, argv[argc]) >= stackbase
    && CopyOut(space, NextSp(sp, argv[argc]), Terminated(argv[argc])).Some?
  }

  /** One turn of the string loop: the rest of the loop runs on the stack with argv[argc] pushed. */
  lemma PushOne(space: AddrSpace, sp: int, stackbase: nat, argv: seq<CStr>, argc: nat, ustack: seq<nat>)
    requires argc <= |argv| && argc <= MAXARG && |ustack| == argc && stackbase <= sp
    requires PushesOne(space, sp, stackbase, argv, argc)
    ensures PushStrings(space, sp, stackbase, argv, argc, ustack) ==
      PushStrings(space.(mem := WriteBytes(space.mem, NextSp(sp, argv[argc]), Terminated(argv[argc]))),
                  NextSp(sp, argv[argc]), stackbase, argv, argc + 1, ustack + [NextSp(sp, argv[argc])])
  {
  }

  /**
   The string loop writes only between its final sp and the sp it started
   from, and every string it pushes ends at or below that start.
   */
  lemma {:induction false} PushStringsFrame(space: AddrSpace, sp: int, stackbase: nat, argv: seq<CStr>, argc: nat, ustack: seq<nat>)
    requires argc <= |argv| && argc <= MAXARG && |ustack| == argc && stackbase <= sp
    ensures PushStrings(space, sp, stackbase, argv, argc, ustack).Ok? ==>
      forall a: nat :: a < PushStrings(space, sp, stackbase, argv, argc, ustack).value.sp || sp <= a ==>
        Byte(PushStrings(space, sp, stackbase, argv, argc, ustack).value.space.mem, a) == Byte(space.mem, a)
    ensures PushStrings(space, sp, stackbase, argv, argc, ustack).Ok? ==>
      forall k :: argc <= k < |argv| ==> PushStrings(space, sp, stackbase, argv, argc, ustack).value.ustack[k] + |argv[k]| + 1 <= sp
    decreases |argv| - argc
  {
    if PushesOne(space, sp, stackbase, argv, argc) {
      var sp' := NextSp(sp, argv[argc]);
      var space' := space.(mem := WriteBytes(space.mem, sp', Terminated(argv[argc])));
      PushOne(space, sp, stackbase, argv, argc, ustack);
      PushStringsFrame(space', sp', stackbase, argv, argc + 1, ustack + [sp']);
      var r := PushStrings(space', sp', stackbase, argv, argc + 1, ustack + [sp']);
      if r.Ok? {
        assert r.value.ustack[argc] == (ustack + [sp'])[argc];
      }
    }
  }

  /** Pushing the next string below sp keeps the strings above it and stores the new one. */
  lemma StoredAfterPush(mem: Memory, argv: seq<CStr>, ustack: seq<nat>, sp: int, sp': nat)
    requires |ustack| < |argv| && Stored(mem, argv, ustack, sp)
    requires sp' + |argv[|ustack|]| + 1 <= sp
    ensures Stored(WriteBytes(mem, sp', Terminated(argv[|ustack|])), argv, ustack + [sp'], sp')
  {
    var data := Terminated(argv[|ustack|]);
    var mem' := WriteBytes(mem, sp', data);
    forall k | 0 <= k < |ustack|
      ensures ReadBytes(mem', ustack[k], |argv[k]| + 1) == Terminated(argv[k])
    {
      ReadUntouched(mem, sp', data, ustack[k], |argv[k]| + 1);
    }
    ReadWritten(mem, sp', data);
  }

  /** The stack after the pointer array is pushed. */
  datatype Frame = Frame(space: AddrSpace, sp: nat)

  /**
   Push the pointer array ustack[0..argc] followed by a zero word, 16-byte
   aligned, refusing to go below stackbase.
   */
  function PushPointers(space: AddrSpace, sp: int, stackbase: nat, ustack: seq<nat>): (r: Result<Frame, Error>)
    requires forall k :: 0 <= k < |ustack| ==> ustack[k] < U64
    ensures r.Ok? ==> r.value.sp % 16 == 0 && stackbase <= r.value.sp && r.value.sp + 8 * (|ustack| + 1) <= sp
    ensures r.Ok? ==> ReadBytes(r.value.space.mem, r.value.sp, 8 * (|ustack| + 1)) == EncodeWords(ustack + [0])
    ensures r.Ok? ==> r.value.space.pages == space.pages
    ensures r.Ok? ==> forall a: nat :: a < r.value.sp || sp <= a ==> Byte(r.value.space.mem, a) == Byte(space.mem, a)
  {
    var words := ustack + [0];
    var data := EncodeWords(words);
    var sp' := Align16(sp - |data|);
    if sp' < stackbase then Err(ArgumentsTooLarge)
    else
      var out := CopyOut(space, sp', data);
      if out.None? then Err(BadAddress)
      else
        ReadWritten(space.mem, sp', data);
        Ok(Frame(out.value, sp'))
  }

  /** The finished stack: the memory, the size of the image, sp (also argv for main), and argc. */
  datatype StackImage = StackImage(space: AddrSpace, sz: nat, sp: nat, argc: nat, ustack: seq<nat>)

  /**
   The whole stack setup. On success sp is 16-byte aligned inside the
   stack page, the words at sp are the addresses of the strings followed by
   zero, each address holds its string and NUL, and the guard page below
   has no user access.
   */
  function SetupStack(img: Image, argv: seq<CStr>, ok: bool): (r: Result<StackImage, Error>)
    requires WellFormed(img)
    ensures r.Ok? ==> r.value.argc == |argv| == |r.value.ustack| <= MAXARG
    ensures r.Ok? ==> r.value.sz == PgRoundUp(img.sz) + (USERSTACK + 1) * PGSIZE <= MAXVA
    ensures r.Ok? ==> Covers(r.value.space, r.value.sz) && Extends(img.space, img.sz, r.value.space)
    ensures r.Ok? ==> r.value.sz - USERSTACK * PGSIZE <= r.value.sp < r.value.sz && r.value.sp % 16 == 0
    ensures !ok ==> r == Err(OutOfMemory)
    ensures |argv| > MAXARG ==> r.Err?
  {
    var st := AllocStack(img, ok);
    if st.Err? then Err(st.error)
    else
      var s := st.value;
      var pushed := PushStrings(s.space, s.sz, s.stackbase, argv, 0, []);
      PushStringsFrame(s.space, s.sz, s.stackbase, argv, 0, []);
      if pushed.Err? then Err(pushed.error)
      else
        var p := pushed.value;
        var frame := PushPointers(p.space, p.sp, s.stackbase, p.ustack);
        if frame.Err? then Err(frame.error)
        else
          var f := frame.value;
          Ok(StackImage(f.space, s.sz, f.sp, |argv|, p.ustack))
  }

  /** The words at sp are the string addresses and zero; each address, inside the stack, holds its string and NUL. */
  ghost predicate HoldsArgv(st: StackImage, argv: seq<CStr>) {
    && |st.ustack| == |argv|
    && (forall k :: 0 <= k < |argv| ==> st.ustack[k] < U64)
    && ReadBytes(st.space.mem, st.sp, 8 * (|argv| + 1)) == EncodeWords(st.ustack + [0])
    && forall k :: 0 <= k < |argv| ==>
         st.ustack[k] < st.sz && ReadBytes(st.space.mem, st.ustack[k], |argv[k]| + 1) == Terminated(argv[k])
  }

  /**
   What main finds on a successful stack: the words at sp are the string
   addresses followed by zero, and each address holds its string and NUL,
   inside the stack.
   */
  lemma StackContents(img: Image, argv: seq<CStr>, ok: bool)
    requires WellFormed(img)
    ensures SetupStack(img, argv, ok).Ok? ==> HoldsArgv(SetupStack(img, argv, ok).value, argv)
  {
    var st := AllocStack(img, ok);
    if st.Ok? {
      var s := st.value;
      var pushed := PushStrings(s.space, s.sz, s.stackbase, argv, 0, []);
      PushStringsStored(s.space, s.sz, s.stackbase, argv, 0, []);
      PushStringsFrame(s.space, s.sz, s.stackbase, argv, 0, []);
      if pushed.Ok? {
        var p := pushed.value;
        var frame := PushPointers(p.space, p.sp, s.stackbase, p.ustack);
        if frame.Ok? {
          FinishedStack(p, frame.value, s.sz, argv);
        }
      }
    }
  }

  /** The strings pushed at and above p.sp survive the pointer array pushed below p.sp. */
  lemma FinishedStack(p: Pushed, f: Frame, sz: nat, argv: seq<CStr>)
    requires |p.ustack| == |argv| && Stored(p.space.mem, argv, p.ustack, p.sp)
    requires forall k :: 0 <= k < |argv| ==> p.ustack[k] + |argv[k]| + 1 <= sz
    requires sz <= MAXVA
    requires forall a: nat :: a < f.sp || p.sp <= a ==> Byte(f.space.mem, a) == Byte(p.space.mem, a)
    requires ReadBytes(f.space.mem, f.sp, 8 * (|argv| + 1)) == EncodeWords(p.ustack + [0])
    ensures HoldsArgv(StackImage(f.space, sz, f.sp, |argv|, p.ustack), argv)
  {
    forall k | 0 <= k < |argv|
      ensures ReadBytes(f.space.mem, p.ustack[k], |argv[k]| + 1) == Terminated(argv[k])
    {
      var n := |argv[k]| + 1;
      assert ReadBytes(f.space.mem, p.ustack[k], n) == ReadBytes(p.space.mem, p.ustack[k], n);
    }
  }

  /** The stack pages read as zero and every byte below them as before. */
  lemma AllocStackBytes(img: Image, ok: bool)
    requires WellFormed(img)
    ensures AllocStack(img, ok).Ok? ==>
      forall a: nat :: Byte(AllocStack(img, ok).value.space.mem, a) ==
        if PgRoundUp(img.sz) <= a < AllocStack(img, ok).value.sz then 0 else Byte(img.space.mem, a)
  {
    var base := PgRoundUp(img.sz);
    PageAligned(base);
    assert base / PGSIZE * PGSIZE == base;
    assert PgRoundUp(base + (USERSTACK + 1) * PGSIZE) == base + (USERSTACK + 1) * PGSIZE by {
      PageAligned(base + (USERSTACK + 1) * PGSIZE);
    }
  }

  /**
   Setting up the stack leaves the program below it as it was: every byte
   below PGROUNDUP(sz) reads as before, and the guard page reads as zero.
   */
  lemma StackFrame(img: Image, argv: seq<CStr>, ok: bool)
    requires WellFormed(img)
    ensures SetupStack(img, argv, ok).Ok? ==>
      forall a: nat :: a < SetupStack(img, argv, ok).value.sz - USERSTACK * PGSIZE ==>
        Byte(SetupStack(img, argv, ok).value.space.mem, a) == if a < PgRoundUp(img.sz) then Byte(img.space.mem, a) else 0
  {
    var st := AllocStack(img, ok);
    if st.Ok? {
      var s := st.value;
      AllocStackBytes(img, ok);
      PushStringsFrame(s.space, s.sz, s.stackbase, argv, 0, []);
      var pushed := PushStrings(s.space, s.sz, s.stackbase, argv, 0, []);
      if pushed.Ok? {
        var p := pushed.value;
        var frame := PushPointers(p.space, p.sp, s.stackbase, p.ustack);
        if frame.Ok? {
          assert SetupStack(img, argv, ok).value.space == frame.value.space;
          forall a: nat | a < s.stackbase
            ensures Byte(frame.value.space.mem, a) == Byte(s.space.mem, a)
          {
          }
        }
      }
    }
  }

  /** The page below a successful stack is the guard page: mapped, without user access. */
  lemma StackGuard(img: Image, argv: seq<CStr>, ok: bool)
    requires WellFormed(img)
    ensures SetupStack(img, argv, ok).Ok? ==>
      PgRoundUp(img.sz) / PGSIZE in SetupStack(img, argv, ok).value.space.pages &&
      SetupStack(img, argv, ok).value.space.pages[PgRoundUp(img.sz) / PGSIZE] & PTE_U == 0
  {
  }

  /**
   An example: one argument string that leaves room for the pointer words
   fits on the stack page: when the stack pages can be had, the stack is built.
   */
  lemma OneArgumentFits(img: Image, a0: CStr)
    requires WellFormed(img) && |a0| < PGSIZE - 64
    requires PgRoundUp(img.sz) + (USERSTACK + 1) * PGSIZE <= MAXVA
    ensures SetupStack(img, [a0], true).Ok?
  {
    var s := AllocStack(img, true).value;
    var p := OneStringPushed(s, a0);
    PointersFit(s, p);
  }

  /** The pointer words of one string fit below it on a fresh stack page. */
  lemma PointersFit(s: Stack, p: Pushed)
    requires s.stackbase + 32 <= p.sp <= s.sz && p.space.pages == s.space.pages && |p.ustack| == 1 && p.ustack[0] < U64
    requires forall a :: s.stackbase <= a < s.sz ==> UserWritable(s.space, a)
    ensures PushPointers(p.space, p.sp, s.stackbase, p.ustack).Ok?
  {
    var data := EncodeWords(p.ustack + [0]);
    assert |data| == 16;
    var sp' := Align16(p.sp - |data|);
    forall a | sp' <= a < sp' + |data| ensures UserWritable(p.space, a) {
      assert UserWritable(s.space, a);
    }
  }

  /** Pushing one such string onto a fresh stack succeeds and leaves sp above stackbase + 32. */
  lemma OneStringPushed(s: Stack, a0: CStr) returns (p: Pushed)
    requires s.stackbase + PGSIZE == s.sz <= MAXVA && s.stackbase % PGSIZE == 0 && |a0| < PGSIZE - 64
    requires forall a :: s.stackbase <= a < s.sz ==> UserWritable(s.space, a)
    ensures PushStrings(s.space, s.sz, s.stackbase, [a0], 0, []) == Ok(p)
    ensures s.stackbase + 32 <= p.sp && p.space.pages == s.space.pages && |p.ustack| == 1 && p.ustack[0] < U64
  {
    var argv := [a0];
    var sp' := NextSp(s.sz, a0);
    assert forall a :: sp' <= a < sp' + |Terminated(a0)| ==> UserWritable(s.space, a);
    PushOne(s.space, s.sz, s.stackbase, argv, 0, []);
    p := PushStrings(s.space, s.sz, s.stackbase, argv, 0, []).value;
  }
}
