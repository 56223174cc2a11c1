/**
 Script resolution in kexec (kernel/exec.c:37-109): read the first bytes of
 the file, accept an ELF header, or follow a "#!" line to its interpreter by
 inserting the interpreter path in front of argv and starting over with the
 interpreter, at most MAX_INDIRECTIONS times.
 */
module Shebang {
  import opened LittleEndian
  import opened Outcome
  import opened ExecTypes
  import opened Elf
  import opened Vm

  datatype HeaderKind = TooShort | Native | Script | Unknown

  /** The header kexec reads: the first ELFHDR_SIZE bytes of the file, or all of a shorter file. */
  function ReadHeader(image: seq<byte>): (hdr: seq<byte>)
    ensures |hdr| == Min(|image|, ELFHDR_SIZE)
    ensures forall i :: 0 <= i < |hdr| ==> hdr[i] == image[i]
  {
    ReadAtContent(image, 0, ELFHDR_SIZE);
    ReadAt(image, 0, ELFHDR_SIZE)
  }

  /**
   What the header makes the file. The ELF test comes first, yet no script
   is ever taken for an ELF image: a header is a script exactly when it
   starts with "#!", and an ELF header starts with byte 0x7F. The magic is
   compared byte by byte; MagicBytes shows this is the source's comparison
   of the first little-endian word with ELF_MAGIC.
   */
  function Classify(hdr: seq<byte>): (k: HeaderKind)
    ensures k.TooShort? <==> |hdr| < 2
    ensures k.Native? <==> |hdr| >= ELFHDR_SIZE && HasMagic(hdr)
    ensures k.Script? <==> |hdr| >= 2 && hdr[0] == HASH && hdr[1] == BANG
  {
    if |hdr| < 2 then TooShort
    else if |hdr| >= ELFHDR_SIZE && HasMagic(hdr) then Native
    else if hdr[0] == HASH && hdr[1] == BANG then Script
    else Unknown
  }

  /** An ELF image's header decoded from its first ELFHDR_SIZE bytes. */
  function ElfOf(image: seq<byte>): (h: ElfHeader)
    requires |image| >= ELFHDR_SIZE
    ensures ValidElfHeader(h)
  {
    DecodeElfHeader(image[..ELFHDR_SIZE])
  }

  /** Classify accepts an ELF image exactly when its header is long enough and its magic word is ELF_MAGIC. */
  lemma ClassifyNative(image: seq<byte>)
    ensures Classify(ReadHeader(image)).Native? <==>
      |image| >= ELFHDR_SIZE && Field(image, 0, 4) == ELF_MAGIC
  {
    var hdr := ReadHeader(image);
    if |image| >= ELFHDR_SIZE {
      MagicBytes(hdr);
      MagicBytes(image);
      assert hdr[0..4] == image[0..4];
    }
  }

  predicate Blank(b: byte) {
    b == SPACE || b == TAB
  }

  predicate LineEnd(b: byte) {
    b == LF || b == CR || b == NUL
  }

  /** The first index at or after k that does not hold a blank. */
  function SkipBlanks(hdr: seq<byte>, k: nat): (e: nat)
    requires k <= |hdr|
    ensures k <= e <= |hdr|
    ensures forall i :: k <= i < e ==> Blank(hdr[i])
    ensures e < |hdr| ==> !Blank(hdr[e])
    decreases |hdr| - k
  {
    if k < |hdr| && Blank(hdr[k]) then SkipBlanks(hdr, k + 1) else k
  }

  /** The first index at or after k that holds a line end. */
  function LineStop(hdr: seq<byte>, k: nat): (e: nat)
    requires k <= |hdr|
    ensures k <= e <= |hdr|
    ensures forall i :: k <= i < e ==> !LineEnd(hdr[i])
    ensures e < |hdr| ==> LineEnd(hdr[e])
    decreases |hdr| - k
  {
    if k < |hdr| && !LineEnd(hdr[k]) then LineStop(hdr, k + 1) else k
  }

  /**
   The text of a "#!" line after the marker: leading blanks skipped, up to
   the first newline, carriage return or NUL, or the end of the bytes read.
   */
  function InterpreterLine(hdr: seq<byte>): (line: seq<byte>)
    requires |hdr| >= 2
    ensures forall i :: 0 <= i < |line| ==> !LineEnd(line[i])
    ensures line != [] ==> !Blank(line[0])
    ensures |line| <= |hdr| - 2
  {
    var s := SkipBlanks(hdr, 2);
    hdr[s..LineStop(hdr, s)]
  }

  /** The interpreter path: the line, cut to fit a MAXPATH buffer with its NUL. */
  function Interpreter(hdr: seq<byte>): (p: Path)
    requires |hdr| >= 2
    ensures |p| + 1 <= MAXPATH
    ensures p <= InterpreterLine(hdr)
    ensures |p| == Min(|InterpreterLine(hdr)|, MAXPATH - 1)
    ensures NulFree(p)
  {
    var line := InterpreterLine(hdr);
    line[..Min(|line|, MAXPATH - 1)]
  }

  /** The header read is at most ELFHDR_SIZE bytes, so the cut never happens. */
  lemma InterpreterNeverCut(image: seq<byte>)
    requires |ReadHeader(image)| >= 2
    ensures Interpreter(ReadHeader(image)) == InterpreterLine(ReadHeader(image))
  {
  }

  /** The two scanning loops of exec.c:66-76: skip the blanks, then keep the line's bytes. */
  method ParseInterpreter(hdr: seq<byte>) returns (interp: Path)
    requires |hdr| >= 2
    ensures interp == Interpreter(hdr)
  {
    var s := SkipBlanksLoop(hdr);
    interp := CopyLineLoop(hdr, s);
  }

  /** The first loop: k moves past the blanks after "#!". */
  method SkipBlanksLoop(hdr: seq<byte>) returns (k: nat)
    requires |hdr| >= 2
    ensures k == SkipBlanks(hdr, 2)
  {
    k := 2;
    while k < |hdr| && Blank(hdr[k])
      invariant 2 <= k <= |hdr|
      invariant SkipBlanks(hdr, k) == SkipBlanks(hdr, 2)
    {
      k := k + 1;
    }
  }

  /** The second loop: copy bytes up to the line end, keeping at most MAXPATH - 1 of them (j in the source). */
  method CopyLineLoop(hdr: seq<byte>, s: nat) returns (interp: Path)
    requires s <= |hdr|
    ensures interp == hdr[s..LineStop(hdr, s)][..Min(LineStop(hdr, s) - s, MAXPATH - 1)]
  {
    var k := s;
    interp := [];
    while k < |hdr| && !LineEnd(hdr[k])
      invariant s <= k <= LineStop(hdr, s)
      invariant LineStop(hdr, k) == LineStop(hdr, s)
      invariant |interp| == Min(k - s, MAXPATH - 1)
      invariant interp == hdr[s..s + |interp|]
    {
      if |interp| < MAXPATH - 1 {
        interp := interp + [hdr[k]];
      }
      k := k + 1;
    }
    assert k == LineStop(hdr, s);
    assert hdr[s..k][..|interp|] == hdr[s..s + |interp|];
  }

  /** The caller's argv array: slot i holds a string or the null pointer. */
  type Slots = seq<Option<CStr>>

  /** The number of strings before the first null slot. */
  function ArgCount(slots: Slots): (n: nat)
    requires None in slots
    ensures n < |slots| && slots[n].None?
    ensures forall i :: 0 <= i < n ==> slots[i].Some?
  {
    if slots[0].None? then 0
    else
      assert None in slots[1..];
      1 + ArgCount(slots[1..])
  }

  /** The strings held by the first n slots. */
  function Strings(slots: Slots, n: nat): (args: seq<CStr>)
    requires n <= |slots|
    requires forall i :: 0 <= i < n ==> slots[i].Some?
    ensures |args| == n
    ensures forall i :: 0 <= i < n ==> slots[i] == Some(args[i])
  {
    seq(n, i requires 0 <= i < n => slots[i].value)
  }

  /**
   The argv rewrite of exec.c:84-102 on the array itself: count the
   strings, refuse when no slot is left for one more, shift every slot up to
   and including the null terminator one place right, and put the
   interpreter in slot 0.
   */
  method InsertIntoSlots(slots: Slots, interp: CStr) returns (r: Result<Slots, Error>)
    requires |slots| == MAXARG && None in slots
    ensures r.Err? <==> ArgCount(slots) >= MAXARG - 1
    ensures r.Err? ==> r.error == TooManyArguments
    ensures r.Ok? ==> |r.value| == MAXARG && None in r.value
    ensures r.Ok? ==> ArgCount(r.value) == ArgCount(slots) + 1
    ensures r.Ok? ==> Strings(r.value, ArgCount(r.value)) == [interp] + Strings(slots, ArgCount(slots))
    ensures r.Ok? ==> forall i :: ArgCount(slots) + 1 < i < MAXARG ==> r.value[i] == slots[i]
  {
    var count := 0;
    while slots[count].Some?
      invariant count <= ArgCount(slots)
      decreases ArgCount(slots) - count
    {
      count := count + 1;
    }
    if count >= MAXARG - 1 {
      return Err(TooManyArguments);
    }
    var a := slots;
    var m: int := count;
    while m >= 0
      invariant -1 <= m <= count
      invariant |a| == |slots|
      invariant forall i :: 0 <= i <= m + 1 ==> a[i] == slots[i]
      invariant forall i :: m + 1 < i <= count + 1 ==> a[i] == slots[i - 1]
      invariant forall i :: count + 1 < i < |a| ==> a[i] == slots[i]
    {
      a := a[m + 1 := a[m]];
      m := m - 1;
    }
    a := a[0 := Some(interp)];
    assert a[count + 1].None?;
    r := Ok(a);
  }

  /**
   The same rewrite on argv as a list, with the allocation of the
   interpreter string (exec.c:96-100) placed between the shift and the store
   as in the source. The second component is the argv the caller is left
   with. On allocation failure the shift has already happened, so the caller
   gets its first string twice.
   */
  function InsertInterpreterAsWritten(argv: seq<CStr>, interp: CStr, allocOk: bool): (r: (Result<seq<CStr>, Error>, seq<CStr>))
    ensures r.0.Err? <==> |argv| >= MAXARG - 1 || !allocOk
    ensures r.0.Ok? ==> r.0.value == [interp] + argv && r.1 == r.0.value
  {
    if |argv| >= MAXARG - 1 then (Err(TooManyArguments), argv)
    else if !allocOk then (Err(OutOfMemory), if argv == [] then [] else [argv[0]] + argv)
    else (Ok([interp] + argv), [interp] + argv)
  }

  /** A failed allocation leaves the caller holding a duplicated first entry. */
  lemma ShiftBeforeAllocDuplicates(s: CStr, interp: CStr)
    ensures InsertInterpreterAsWritten([s], interp, false) == (Err(OutOfMemory), [s, s])
  {
    assert [s][0] == s && [s] + [s] == [s, s];
  }

  /**
   The rewrite with the allocation made before the shift: it either
   inserts the interpreter or leaves argv exactly as it was.
   */
  function InsertInterpreter(argv: seq<CStr>, interp: CStr, allocOk: bool): (r: (Result<seq<CStr>, Error>, seq<CStr>))
    ensures r.0.Err? <==> |argv| >= MAXARG - 1 || !allocOk
    ensures r.0.Ok? ==> r.0.value == [interp] + argv && r.1 == r.0.value
    ensures r.0.Err? ==> r.1 == argv
  {
    if |argv| >= MAXARG - 1 then (Err(TooManyArguments), argv)
    else if !allocOk then (Err(OutOfMemory), argv)
    else (Ok([interp] + argv), [interp] + argv)
  }

  /** Both forms agree whenever the allocation succeeds or is never reached. */
  lemma InsertInterpreterAgrees(argv: seq<CStr>, interp: CStr, allocOk: bool)
    requires allocOk || |argv| >= MAXARG - 1
    ensures InsertInterpreterAsWritten(argv, interp, allocOk) == InsertInterpreter(argv, interp, allocOk)
  {
  }

  datatype Resolution =
    | Resolved(path: Path, argv: seq<CStr>, image: seq<byte>, depth: nat)
    | Failed(error: Error, argv: seq<CStr>, depth: nat)

  /**
   The retry loop of kexec from indirection depth on: look the path up,
   read and classify its header, and either stop at an ELF image, fail, or
   continue with the interpreter. depth counts the interpreters inserted.
   */
  function Resolve(env: Env, path: Path, argv: seq<CStr>, depth: nat): (r: Resolution)
    requires depth <= MAX_INDIRECTIONS
    ensures depth <= r.depth <= MAX_INDIRECTIONS
    ensures r.Resolved? ==> |r.argv| == |argv| + (r.depth - depth)
    ensures |argv| + (r.depth - depth) <= |r.argv| <= |argv| + (r.depth - depth) + 1
    ensures r.Failed? && r.error == TooManyIndirections ==> r.depth == MAX_INDIRECTIONS
    decreases MAX_INDIRECTIONS - depth
  {
    if path !in env.files then Failed(NotFound, argv, depth)
    else
      var image := env.files[path];
      var hdr := ReadHeader(image);
      match Classify(hdr)
      case TooShort => Failed(NotExecutable, argv, depth)
      case Unknown => Failed(NotExecutable, argv, depth)
      case Native => Resolved(path, argv, image, depth)
      case Script =>
        if depth >= MAX_INDIRECTIONS then Failed(TooManyIndirections, argv, depth)
        else
          var interp := Interpreter(hdr);
          if interp == [] then Failed(NotExecutable, argv, depth)
          else
            var inserted := InsertInterpreterAsWritten(argv, interp, depth !in env.alloc.interpFails);
            if inserted.0.Err? then Failed(inserted.0.error, inserted.1, depth)
            else
              Resolve(env, interp, inserted.0.value, depth + 1)
  }

  /** What the loop stops at is a file of env whose header makes it an ELF image. */
  lemma {:induction false} ResolvedImage(env: Env, path: Path, argv: seq<CStr>, depth: nat)
    requires depth <= MAX_INDIRECTIONS
    ensures Resolve(env, path, argv, depth).Resolved? ==>
      && Resolve(env, path, argv, depth).path in env.files
      && Resolve(env, path, argv, depth).image == env.files[Resolve(env, path, argv, depth).path]
      && Classify(ReadHeader(Resolve(env, path, argv, depth).image)) == Native
      && |Resolve(env, path, argv, depth).image| >= ELFHDR_SIZE
    decreases MAX_INDIRECTIONS - depth
  {
    if Steps(env, path, argv, depth) {
      var interp := Interpreter(ReadHeader(env.files[path]));
      ResolveScriptStep(env, path, argv, depth);
      ResolvedImage(env, interp, [interp] + argv, depth + 1);
    }
  }

  /** The elements of s, last first. */
  function Reverse<T>(s: seq<T>): (r: seq<T>)
    ensures |r| == |s|
  {
    if s == [] then [] else [s[|s| - 1]] + Reverse(s[..|s| - 1])
  }

  /** A script whose first line names interpreter p. */
  function ScriptFile(p: Path): seq<byte> {
    [HASH, BANG] + p + [LF]
  }

  /** A path a "#!" line can name in full: non-empty, not starting blank, fitting the header. */
  predicate Nameable(p: Path) {
    1 <= |p| <= ELFHDR_SIZE - 3 && !Blank(p[0]) && forall i :: 0 <= i < |p| ==> !LineEnd(p[i])
  }

  lemma ScriptFileNames(p: Path)
    requires Nameable(p)
    ensures Classify(ReadHeader(ScriptFile(p))) == Script
    ensures Interpreter(ReadHeader(ScriptFile(p))) == p
  {
    var f := ScriptFile(p);
    var hdr := ReadHeader(f);
    assert hdr == f;
    assert SkipBlanks(hdr, 2) == 2;
    assert LineStop(hdr, 2) == 2 + |p| by {
      LineStopAt(hdr, 2, 2 + |p|);
    }
    assert hdr[2..2 + |p|] == p;
  }

  lemma LineStopAt(hdr: seq<byte>, k: nat, e: nat)
    requires k <= e < |hdr|
    requires forall i :: k <= i < e ==> !LineEnd(hdr[i])
    requires LineEnd(hdr[e])
    ensures LineStop(hdr, k) == e
  {
  }

  /** paths[i] is a script naming paths[i + 1]. */
  predicate Link(env: Env, paths: seq<Path>, i: nat)
    requires i + 1 < |paths|
  {
    paths[i] in env.files && Nameable(paths[i + 1]) && env.files[paths[i]] == ScriptFile(paths[i + 1])
  }

  /** Every path of the chain but the last is a script naming the next one. */
  predicate Chain(env: Env, paths: seq<Path>) {
    |paths| >= 1 && forall i :: 0 <= i < |paths| - 1 ==> Link(env, paths, i)
  }

  /** One round of the retry loop on a script. */
  lemma ResolveScriptStep(env: Env, path: Path, argv: seq<CStr>, depth: nat)
    requires path in env.files && depth < MAX_INDIRECTIONS
    requires Classify(ReadHeader(env.files[path])) == Script
    requires Interpreter(ReadHeader(env.files[path])) != []
    requires |argv| < MAXARG - 1 && depth !in env.alloc.interpFails
    ensures Resolve(env, path, argv, depth) ==
            Resolve(env, Interpreter(ReadHeader(env.files[path])), [Interpreter(ReadHeader(env.files[path]))] + argv, depth + 1)
  {
  }

  /**
   The caller's strings stay at the end of argv: each script followed puts
   one interpreter in front, and a failed allocation one copy of the first
   string, so what follows those is argv as it was.
   */
  lemma {:induction false} ResolveKeepsArgv(env: Env, path: Path, argv: seq<CStr>, depth: nat)
    requires depth <= MAX_INDIRECTIONS
    ensures Resolve(env, path, argv, depth).argv[|Resolve(env, path, argv, depth).argv| - |argv|..] == argv
    decreases MAX_INDIRECTIONS - depth
  {
    if Steps(env, path, argv, depth) {
      var interp := Interpreter(ReadHeader(env.files[path]));
      ResolveScriptStep(env, path, argv, depth);
      ResolveKeepsArgv(env, interp, [interp] + argv, depth + 1);
      var r := Resolve(env, interp, [interp] + argv, depth + 1);
      DropFront(r.argv, |r.argv| - |[interp] + argv|, interp, argv);
    } else {
      ResolveStops(env, path, argv, depth);
    }
  }

  /**
   Paths and strings without a NUL stay so: every interpreter read off a
   "#!" line stops before the first NUL, and a doubled first string is one
   of the caller's.
   */
  lemma {:induction false} ResolveNulFree(env: Env, path: Path, argv: seq<CStr>, depth: nat)
    requires depth <= MAX_INDIRECTIONS
    requires NulFree(path) && forall k :: 0 <= k < |argv| ==> NulFree(argv[k])
    ensures forall k :: 0 <= k < |Resolve(env, path, argv, depth).argv| ==> NulFree(Resolve(env, path, argv, depth).argv[k])
    ensures Resolve(env, path, argv, depth).Resolved? ==> NulFree(Resolve(env, path, argv, depth).path)
    decreases MAX_INDIRECTIONS - depth
  {
    if Steps(env, path, argv, depth) {
      var interp := Interpreter(ReadHeader(env.files[path]));
      ResolveScriptStep(env, path, argv, depth);
      var next := [interp] + argv;
      assert forall k :: 0 <= k < |next| ==> NulFree(next[k]) by {
        forall k | 0 <= k < |next| ensures NulFree(next[k]) {
          if k > 0 { assert next[k] == argv[k - 1]; }
        }
      }
      ResolveNulFree(env, interp, next, depth + 1);
    } else {
      ResolveStops(env, path, argv, depth);
      var r := Resolve(env, path, argv, depth);
      forall k | 0 <= k < |r.argv| ensures NulFree(r.argv[k]) {
        if r.argv != argv {
          assert r.argv[k] == if k == 0 then argv[0] else argv[k - 1];
        }
      }
    }
  }

  /** Whether kexec at this path follows a "#!" line to an interpreter rather than stopping. */
  predicate Steps(env: Env, path: Path, argv: seq<CStr>, depth: nat) {
    && path in env.files && depth < MAX_INDIRECTIONS
    && Classify(ReadHeader(env.files[path])) == Script
    && Interpreter(ReadHeader(env.files[path])) != []
    && |argv| < MAXARG - 1 && depth !in env.alloc.interpFails
  }

  /**
   Where kexec does not follow a script, it stops at the same depth with argv
   as it was, except that a failed interpreter allocation leaves the first
   string doubled.
   */
  lemma ResolveStops(env: Env, path: Path, argv: seq<CStr>, depth: nat)
    requires depth <= MAX_INDIRECTIONS && !Steps(env, path, argv, depth)
    ensures Resolve(env, path, argv, depth).depth == depth
    ensures Resolve(env, path, argv, depth).argv == argv ||
            (Resolve(env, path, argv, depth).Failed? && Resolve(env, path, argv, depth).error == OutOfMemory &&
             argv != [] && Resolve(env, path, argv, depth).argv == [argv[0]] + argv)
  {
  }

  /** If s from k on is x followed by t, then s from k + 1 on is t. */
  lemma DropFront<T>(s: seq<T>, k: nat, x: T, t: seq<T>)
    requires k <= |s| && s[k..] == [x] + t
    ensures s[k + 1..] == t
  {
    assert s[k + 1..] == s[k..][1..];
  }

  /**
   argv after the interpreters of the first k links of a chain were put in
   front of it, one at a time: paths[k] is the most recent.
   */
  function Inserted(paths: seq<Path>, k: nat, argv: seq<CStr>): (r: seq<CStr>)
    requires k < |paths|
    ensures |r| == |argv| + k
    decreases k
  {
    if k == 0 then argv else [paths[k]] + Inserted(paths, k - 1, argv)
  }

  /** The interpreters in front are the chain's paths after the first, last first. */
  lemma {:induction false} InsertedReversed(paths: seq<Path>, k: nat, argv: seq<CStr>)
    requires k < |paths|
    ensures Inserted(paths, k, argv) == Reverse(paths[1..k + 1]) + argv
    decreases k
  {
    if k > 0 {
      InsertedReversed(paths, k - 1, argv);
      assert paths[1..k + 1][..k - 1] == paths[1..k];
    }
  }

  /** Where the retry loop stands at link j of a chain: paths[j] with the first j interpreters inserted. */
  ghost function Follow(env: Env, paths: seq<Path>, argv: seq<CStr>, depth: nat, j: nat): Resolution
    requires j < |paths| && depth + j <= MAX_INDIRECTIONS
  {
    Resolve(env, paths[j], Inserted(paths, j, argv), depth + j)
  }

  /** Link j leads on to link j + 1 with the same outcome. */
  ghost predicate Hop(env: Env, paths: seq<Path>, argv: seq<CStr>, depth: nat, j: nat)
    requires j + 1 < |paths| && depth + j + 1 <= MAX_INDIRECTIONS
  {
    Follow(env, paths, argv, depth, j) == Follow(env, paths, argv, depth, j + 1)
  }

  /** Link k of a chain: resolving paths[k] continues at paths[k + 1] with it in front of argv. */
  lemma ChainStep(env: Env, paths: seq<Path>, argv: seq<CStr>, depth: nat, k: nat)
    requires Chain(env, paths) && k + 1 < |paths|
    requires depth + k < MAX_INDIRECTIONS && |argv| + k < MAXARG - 1 && depth + k !in env.alloc.interpFails
    ensures Hop(env, paths, argv, depth, k)
  {
    assert Link(env, paths, k);
    ScriptFileNames(paths[k + 1]);
    ResolveScriptStep(env, paths[k], Inserted(paths, k, argv), depth + k);
  }

  /** Neighbours equal from k on: the value at k is the last one. */
  lemma {:induction false} AllEqualFrom<T>(rs: seq<T>, k: nat)
    requires k < |rs|
    requires forall j :: k <= j < |rs| - 1 ==> rs[j] == rs[j + 1]
    ensures rs[k] == rs[|rs| - 1]
    decreases |rs| - k
  {
    if k + 1 < |rs| {
      AllEqualFrom(rs, k + 1);
    }
  }

  /** Every link of a chain is one round of the retry loop. */
  lemma ChainSteps(env: Env, paths: seq<Path>, argv: seq<CStr>, depth: nat)
    requires Chain(env, paths)
    requires depth + |paths| - 1 <= MAX_INDIRECTIONS
    requires |argv| + |paths| - 1 <= MAXARG - 1
    requires forall d :: depth <= d < depth + |paths| - 1 ==> d !in env.alloc.interpFails
    ensures forall j :: 0 <= j < |paths| - 1 ==> Hop(env, paths, argv, depth, j)
  {
    forall j | 0 <= j < |paths| - 1
      ensures Hop(env, paths, argv, depth, j)
    {
      ChainStep(env, paths, argv, depth, j);
    }
  }

  /** Outcomes equal from one link to the next are equal from the first link to the last. */
  lemma FollowSteps(env: Env, paths: seq<Path>, argv: seq<CStr>, depth: nat)
    requires |paths| >= 1 && depth + |paths| - 1 <= MAX_INDIRECTIONS
    requires forall j :: 0 <= j < |paths| - 1 ==> Hop(env, paths, argv, depth, j)
    ensures Follow(env, paths, argv, depth, 0) == Follow(env, paths, argv, depth, |paths| - 1)
  {
    var rs := seq(|paths|, j requires 0 <= j < |paths| => Follow(env, paths, argv, depth, j));
    forall j | 0 <= j < |rs| - 1
      ensures rs[j] == rs[j + 1]
    {
      assert Hop(env, paths, argv, depth, j);
    }
    AllEqualFrom(rs, 0);
  }

  /**
   Following a chain inserts every interpreter after the first path in front
   of argv and continues at the last path, provided the depth bound, the argv
   capacity and the allocator allow every step.
   */
  lemma ResolveChain(env: Env, paths: seq<Path>, argv: seq<CStr>, depth: nat)
    requires Chain(env, paths)
    requires depth + |paths| - 1 <= MAX_INDIRECTIONS
    requires |argv| + |paths| - 1 <= MAXARG - 1
    requires forall d :: depth <= d < depth + |paths| - 1 ==> d !in env.alloc.interpFails
    ensures Resolve(env, paths[0], argv, depth) ==
            Resolve(env, paths[|paths| - 1], Inserted(paths, |paths| - 1, argv), depth + (|paths| - 1))
  {
    ChainSteps(env, paths, argv, depth);
    HopsResolve(env, paths, argv, depth);
  }

  /** Outcomes equal link by link: resolving the first path is resolving the last with the interpreters in front. */
  lemma HopsResolve(env: Env, paths: seq<Path>, argv: seq<CStr>, depth: nat)
    requires |paths| >= 1 && depth + |paths| - 1 <= MAX_INDIRECTIONS
    requires forall j :: 0 <= j < |paths| - 1 ==> Hop(env, paths, argv, depth, j)
    ensures Resolve(env, paths[0], argv, depth) ==
            Resolve(env, paths[|paths| - 1], Inserted(paths, |paths| - 1, argv), depth + (|paths| - 1))
  {
    FollowSteps(env, paths, argv, depth);
    FollowAt(env, paths, argv, depth, 0);
    FollowAt(env, paths, argv, depth, |paths| - 1);
  }

  /** Link j of a chain is resolving paths[j] with the first j interpreters inserted. */
  lemma FollowAt(env: Env, paths: seq<Path>, argv: seq<CStr>, depth: nat, j: nat)
    requires j < |paths| && depth + j <= MAX_INDIRECTIONS
    ensures Follow(env, paths, argv, depth, j) == Resolve(env, paths[j], Inserted(paths, j, argv), depth + j)
    ensures j == 0 ==> Follow(env, paths, argv, depth, j) == Resolve(env, paths[0], argv, depth)
  {
  }

  /** A chain of k <= 6 scripts ending at an ELF image resolves to it. */
  lemma ChainResolves(env: Env, paths: seq<Path>, argv: seq<CStr>)
    requires Chain(env, paths) && paths[|paths| - 1] in env.files
    requires Classify(ReadHeader(env.files[paths[|paths| - 1]])).Native?
    requires |paths| - 1 <= MAX_INDIRECTIONS
    requires |argv| + |paths| - 1 <= MAXARG - 1
    requires forall d :: 0 <= d < |paths| - 1 ==> d !in env.alloc.interpFails
    ensures Resolve(env, paths[0], argv, 0).Resolved?
    ensures Resolve(env, paths[0], argv, 0).path == paths[|paths| - 1]
    ensures Resolve(env, paths[0], argv, 0).argv == Reverse(paths[1..]) + argv
    ensures Resolve(env, paths[0], argv, 0).depth == |paths| - 1
  {
    var last := paths[|paths| - 1];
    var k := |paths| - 1;
    ResolveChain(env, paths, argv, 0);
    InsertedReversed(paths, k, argv);
    assert paths[1..|paths|] == paths[1..];
    NativeResolves(env, last, Inserted(paths, k, argv), k);
  }

  /** An ELF image resolves to itself with argv as given. */
  lemma NativeResolves(env: Env, path: Path, argv: seq<CStr>, depth: nat)
    requires depth <= MAX_INDIRECTIONS && path in env.files
    requires Classify(ReadHeader(env.files[path])).Native?
    ensures Resolve(env, path, argv, depth) == Resolved(path, argv, env.files[path], depth)
  {
  }

  /** A seventh script in a row fails, whatever the rest of the chain holds. */
  lemma SeventhScriptFails(env: Env, paths: seq<Path>, argv: seq<CStr>)
    requires |paths| == MAX_INDIRECTIONS + 2 && Chain(env, paths)
    requires |argv| + MAX_INDIRECTIONS <= MAXARG - 1
    requires forall d :: 0 <= d < MAX_INDIRECTIONS ==> d !in env.alloc.interpFails
    ensures Resolve(env, paths[0], argv, 0).Failed?
    ensures Resolve(env, paths[0], argv, 0).error == TooManyIndirections
    ensures Resolve(env, paths[0], argv, 0).depth == MAX_INDIRECTIONS
  {
    var prefix := paths[..MAX_INDIRECTIONS + 1];
    assert Chain(env, prefix) by {
      forall i | 0 <= i < |prefix| - 1
        ensures Link(env, prefix, i)
      {
        assert Link(env, paths, i);
      }
    }
    ResolveChain(env, prefix, argv, 0);
    assert Link(env, paths, MAX_INDIRECTIONS);
    ScriptFileNames(paths[MAX_INDIRECTIONS + 1]);
  }

  /** An example: "#!/bin/sh\n" run with argv ["script"] loads /bin/sh with argv ["/bin/sh", "script"]. */
  lemma BinShScenario(env: Env, script: Path, arg0: CStr)
    requires arg0 == [115, 99, 114, 105, 112, 116]
    requires script in env.files
    requires env.files[script] == [HASH, BANG, SLASH, 98, 105, 110, SLASH, 115, 104, LF]
    requires [SLASH, 98, 105, 110, SLASH, 115, 104] in env.files
    requires Classify(ReadHeader(env.files[[SLASH, 98, 105, 110, SLASH, 115, 104]])).Native?
    requires 0 !in env.alloc.interpFails
    ensures Resolve(env, script, [arg0], 0).Resolved?
    ensures Resolve(env, script, [arg0], 0).path == [SLASH, 98, 105, 110, SLASH, 115, 104]
    ensures Resolve(env, script, [arg0], 0).argv == [[SLASH, 98, 105, 110, SLASH, 115, 104], arg0]
  {
    var sh: Path := [SLASH, 98, 105, 110, SLASH, 115, 104];
    assert [HASH, BANG] + sh + [LF] == env.files[script];
    OneScript(env, script, sh, [arg0]);
  }

  /** A script naming an ELF interpreter runs that interpreter with the interpreter's path in front of argv. */
  lemma OneScript(env: Env, script: Path, interp: Path, argv: seq<CStr>)
    requires script in env.files && Nameable(interp) && env.files[script] == ScriptFile(interp)
    requires interp in env.files && Classify(ReadHeader(env.files[interp])).Native?
    requires |argv| < MAXARG - 1 && 0 !in env.alloc.interpFails
    ensures Resolve(env, script, argv, 0).Resolved?
    ensures Resolve(env, script, argv, 0).path == interp
    ensures Resolve(env, script, argv, 0).argv == [interp] + argv
  {
    ScriptFileNames(interp);
    ResolveScriptStep(env, script, argv, 0);
  }
}
