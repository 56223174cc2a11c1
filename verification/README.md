# xv6 exec with shebang scripts, two shells and cat, in Dafny

A model of four parts of a teaching fork of xv6 (RISC-V):

- **kexec** (`kernel/exec.c`): the kernel side of `exec`. It looks the path up and reads the
  first 64 bytes. An ELF image is loaded. A `#!` script puts its interpreter in front of argv
  and retries, at most six times in a row. Loading an image means walking the program headers,
  growing the address space and copying each loadable segment page by page (`loadseg`). Then
  comes a two-page stack with a guard page: the argument strings go on it, 16-byte aligned,
  and the null-terminated pointer array under them. Last, the process name is taken from the
  path, and the new image is committed only when every step succeeded.
- **smash** (`user/smash.c`): a shell with `#` comments and a 100-slot history ring.
  `!!`, `!n` and `!prefix` recall entries; `history` lists them. Tokens come from
  `strspn`/`strcspn`/`next_token`. Pipelines, per-stage `<`, `>` and `>>`, a trailing `&`,
  and an `execvp` that tries `/cmd` before `cmd` complete it.
- **myshell** (`user/myshell.c`): a smaller shell. It has `readline`, a blank splitter, the
  built-ins `exit` and `cd`, a trailing `&`, one `|`, and the first `<` or `>`.
- **cat** (`user/cat.c`): the options `-n`, `-b`, `-E` and `-s`, with a per-file state
  machine over the bytes read.

Modules follow the program's structure:

- `Outcome`: Option and Result.
- `LittleEndian`, `Elf`: byte codecs and the ELF headers.
- `ExecTypes`: constants, errors, and the file system and allocator environment.
- `Vm`: an abstract address space, made of a page map and a memory function. It provides
  `uvmalloc`, `uvmclear`, `copyout` and `readi`.
- `Shebang`: header classification, interpreter parsing, argv insertion and the retry loop.
- `Segments`, `SegmentBytes`: `loadseg` and the program-header loop, with what lands in
  memory.
- `UserStack`: the stack setup.
- `Exec`: the process name, building the image, committing it, and `kexec` itself.
- `WordScan`, `Decimal`: reference definitions of "the words of a line", `atoi` and `%d`.
- `SmashTokens`, `SmashHistory`, `SmashStage`, `Smash`: the smash shell.
- `MyShell`: the myshell shell.
- `Cat`: the cat program.

Every pointer-walking loop is proved equal to a reference definition:

- both shells' tokenizers against `WordScan.Words`;
- the history ring against the log of stored commands;
- the stack contents against the argv that `main` reads back;
- the loaded image against the segments written over zeroes;
- cat's output against per-line reference functions.

Where the code departs from what it evidently intends, the model follows the code and
proves the departure; the corrected behaviour is modelled alongside (see Findings).

## Model

| member | source | states |
|---|---|---|
| LittleEndian.Decode | kernel/exec.c:48 | the value read from n little-endian bytes is below 256^n |
| LittleEndian.DecodeEncode | kernel/exec.c:48 | decoding the n-byte encoding of any value below 256^n gives the value back |
| LittleEndian.EncodeDecode | kernel/exec.c:48 | encoding a decoded byte string at its own width gives the bytes back |
| LittleEndian.EncodeWordsReadBack | kernel/exec.c:166 | word i of a uint64 array copied out as bytes reads back as element i |
| Elf.DecodeElfHeader | kernel/exec.c:48-55 | a 64-byte header decodes to fields within their C widths (32-bit magic, 64-bit entry and phoff, 16-bit phnum) |
| Elf.ElfHeaderRoundTrip | kernel/exec.c:48-55 | decoding the encoding of any well-formed ELF header gives it back |
| Elf.ElfHeaderLeadingFields | kernel/exec.c:55 | magic, entry and phoff sit at offsets 0, 24 and 32 of the header |
| Elf.ElfHeaderCount | kernel/exec.c:115 | phnum sits at offset 56 as a 16-bit field |
| Elf.DecodeProgHeader | kernel/exec.c:116 | a 56-byte program header decodes to fields within their C widths |
| Elf.ProgHeaderRoundTrip | kernel/exec.c:116 | decoding the encoding of any well-formed program header gives it back |
| Elf.ProgHeaderLeadingFields | kernel/exec.c:118-130 | type, flags and offset sit at offsets 0, 4 and 8 |
| Elf.ProgHeaderTrailingFields | kernel/exec.c:120-130 | vaddr, filesz and memsz sit at offsets 16, 32 and 40 |
| Elf.MagicBytes | kernel/exec.c:55 | comparing the first little-endian word with ELF_MAGIC is the same as comparing the four bytes 0x7F 'E' 'L' 'F' |
| Vm.PgRoundUp | kernel/exec.c:140 | the result is the least multiple of PGSIZE at or above the address |
| Vm.PgRoundDown | kernel/exec.c:202 | the result is the start of the page holding the address |
| Vm.Uvmalloc | kernel/exec.c:127 | on success the size is the larger of old and new; exactly the pages from PGROUNDUP(oldsz) up to newsz are added; a shrinking request changes nothing; a failure leaves the space unchanged |
| Vm.UvmallocCovers | kernel/exec.c:127-129 | growing a space that maps exactly the pages below oldsz, all with PTE_U, gives one that does the same for the new size |
| Vm.UvmallocBytes | kernel/exec.c:127 | where memory from oldsz up is zero, uvmalloc changes no byte |
| Vm.Uvmclear | kernel/exec.c:145 | the page holding va loses PTE_U; every other page and all memory stay the same |
| Vm.WriteBytes | kernel/exec.c:156 | the written range holds the data; every other byte is unchanged |
| Vm.ReadWritten | kernel/exec.c:156 | reading back what was just written gives the data |
| Vm.ReadUntouched | kernel/exec.c:156 | a write leaves every range it does not overlap as it was |
| Vm.CopyOut | kernel/exec.c:156 | copyout succeeds exactly when every target byte lies in a user-writable page, and then writes the data and nothing else |
| Vm.ReadAt | kernel/exec.c:116 | readi returns at most n bytes, all n exactly when n is 0 or they lie within the file with the offset plus n below 2^32; from an offset inside the file with no 32-bit overflow it returns min(n, bytes left); whatever it returns lies within the file |
| Vm.ReadAtContent | kernel/exec.c:209 | the bytes readi returns are the file's bytes from the offset on |
| Vm.SliceIsSubsequence | kernel/exec.c:93 | the byte-by-byte copy equals the subsequence |
| Shebang.ReadHeader | kernel/exec.c:48 | the header is the first min(size, 64) bytes of the file |
| Shebang.Classify | kernel/exec.c:49-58 | too short exactly when fewer than 2 bytes; ELF exactly when 64 bytes with the magic; script exactly when it starts with "#!" |
| Shebang.ClassifyNative | kernel/exec.c:55 | a file is taken for an ELF image exactly when it has 64 bytes and its magic word is ELF_MAGIC |
| Shebang.SkipBlanks | kernel/exec.c:69 | the index of the first non-blank at or after k, with only blanks before it |
| Shebang.LineStop | kernel/exec.c:71 | the index of the first '\n', '\r' or NUL at or after k |
| Shebang.InterpreterLine | kernel/exec.c:69-76 | the interpreter text holds no line end and does not start with a blank |
| Shebang.Interpreter | kernel/exec.c:65-76 | the path is the line cut to MAXPATH - 1 bytes, fits MAXPATH with its NUL, and has no NUL |
| Shebang.InterpreterNeverCut | kernel/exec.c:48-72 | since at most 64 header bytes are read, the MAXPATH cut never applies |
| Shebang.ParseInterpreter | kernel/exec.c:66-76 | the two scanning loops compute Interpreter |
| Shebang.SkipBlanksLoop | kernel/exec.c:69 | the blank-skipping loop stops at SkipBlanks from offset 2 |
| Shebang.CopyLineLoop | kernel/exec.c:71-75 | the copy loop keeps the line's first MAXPATH - 1 bytes |
| Shebang.ArgCount | kernel/exec.c:85 | the count is the index of the first null slot; every slot before it holds a string |
| Shebang.InsertIntoSlots | kernel/exec.c:84-102 | it fails exactly when count >= MAXARG - 1; otherwise the strings become the interpreter followed by the old strings, with the count one higher and the later slots untouched |
| Shebang.InsertInterpreterAsWritten | kernel/exec.c:87-102 | it fails when argv is full or the allocation fails, and on success gives the interpreter in front of argv |
| Shebang.ShiftBeforeAllocDuplicates | kernel/exec.c:92-99 | with a failed allocation, the caller's argv ["s"] is left as ["s", "s"] |
| Shebang.InsertInterpreter | kernel/exec.c:87-102 | corrected order: the same success and failure cases, but a failure leaves argv exactly as it was |
| Shebang.InsertInterpreterAgrees | kernel/exec.c:87-102 | both orders agree whenever the allocation succeeds or is never reached |
| Shebang.Resolve | kernel/exec.c:39-109 | the depth never passes 6; a resolved argv has one string per script followed; any argv has at most one extra string (the duplicate); too many indirections means depth 6 |
| Shebang.ResolvedImage | kernel/exec.c:40-55 | what the loop stops at is a file of the environment whose header makes it an ELF image |
| Shebang.ResolveKeepsArgv | kernel/exec.c:92-102 | the caller's strings always stay at the end of argv |
| Shebang.ResolveNulFree | kernel/exec.c:71-76 | NUL-free paths and strings stay NUL-free through every retry |
| Shebang.ResolveScriptStep | kernel/exec.c:58-105 | one script round continues at the interpreter with it in front of argv, one level deeper |
| Shebang.ResolveStops | kernel/exec.c:49-109 | where no script is followed, the loop stops at the same depth with argv unchanged or with its first string doubled |
| Shebang.InsertedReversed | kernel/exec.c:102 | after a chain, the interpreters in front of argv are the chain's paths, last first |
| Shebang.ResolveChain | kernel/exec.c:39-105 | following a chain of scripts, within the depth and argv limits and with every allocation succeeding, is resolving its last path with the chain's interpreters in front of argv, that many levels deeper |
| Shebang.ChainResolves | kernel/exec.c:39-109 | a chain of at most 6 scripts ending at an ELF image resolves to that image with every interpreter in front of argv |
| Shebang.NativeResolves | kernel/exec.c:55 | an ELF image resolves to itself with argv as given |
| Shebang.SeventhScriptFails | kernel/exec.c:59-61 | a seventh script in a row fails with too many indirections |
| Shebang.BinShScenario | kernel/exec.c:58-105 | example: "#!/bin/sh\n" run as ["script"] loads /bin/sh with argv ["/bin/sh", "script"] |
| Shebang.OneScript | kernel/exec.c:58-105 | a script naming an ELF interpreter runs it with the interpreter's path in front of argv |
| Segments.Flags2Perm | kernel/exec.c:12-20 | PTE_X exactly when flag bit 0x1, PTE_W exactly when flag bit 0x2, and no other bit |
| Segments.ChunkLen | kernel/exec.c:205-208 | each chunk is 1 to PGSIZE bytes inside the segment, and only the last chunk is short |
| Segments.LoadSegSpec | kernel/exec.c:195-214 | loadseg fails exactly when the file cannot supply sz bytes from the offset (or the 32-bit offset would wrap); on success the pages are unchanged and the segment holds the file's bytes |
| Segments.LoadingStep | kernel/exec.c:201-211 | one full chunk read and written moves the loop invariant on by a page |
| Segments.LoadedAll | kernel/exec.c:201-213 | when the loop ends, memory reads as loadseg's net effect |
| Segments.LoadSegLoop | kernel/exec.c:195-214 | the page loop fails exactly when LoadSeg does, and otherwise leaves the same pages and the same bytes |
| Segments.LoadSegShort | kernel/exec.c:209-210 | a short read of any chunk means the whole load fails |
| Segments.Counter32 | kernel/exec.c:198-201 | the 32-bit counter is always a page-aligned value below 2^32 |
| Segments.CounterAgrees | kernel/exec.c:201 | without wrap-around, the counter after k turns is k pages |
| Segments.CounterWrapsToZero | kernel/exec.c:201 | after 2^20 turns the counter is back at 0 |
| Segments.LoadSegNeverExits | kernel/exec.c:201 | for sz above 2^32 - PGSIZE the loop test holds at every turn |
| Segments.HeaderOffset | kernel/exec.c:115 | the offset of program header i is a 32-bit value |
| Segments.CheckSegment | kernel/exec.c:120-125 | a loadable header is accepted exactly when memsz >= filesz, vaddr + memsz does not wrap 64 bits, and vaddr is page-aligned |
| Segments.GrowFor | kernel/exec.c:127-129 | on success the image is well formed and its size is the max of the old size and vaddr + memsz; every chunk loadseg touches is mapped and old pages are kept; the failure is an empty image or out of memory |
| Segments.LoadSegment | kernel/exec.c:126-131 | loading one segment keeps the image well formed, sets its size, and keeps every old page |
| Segments.LoadSegments | kernel/exec.c:115-132 | the header loop keeps the image well formed, never shrinks it, and keeps every page it had |
| Segments.FirstGrow | kernel/exec.c:127 | the first grow succeeds exactly when memory is available and 0 < vaddr + memsz <= MAXVA; its pages carry R, U and the segment's permission and read as zero |
| Segments.FirstSegmentLoads | kernel/exec.c:126-131 | the first segment loads exactly when memory is available, it fits below MAXVA, and the file holds its bytes |
| Segments.FirstSegmentPerms | kernel/exec.c:127 | every page of the first segment carries R, U and the segment's own permission |
| Segments.FirstSegmentContent | kernel/exec.c:130 | the first segment holds the file's bytes at vaddr |
| Segments.FirstSegmentZeros | kernel/exec.c:127-130 | past its file bytes the first segment reads as zero up to memsz |
| SegmentBytes.GrowForBytes | kernel/exec.c:127 | growing a clean image changes no byte |
| SegmentBytes.LoadSegmentBytes | kernel/exec.c:126-131 | one segment load writes exactly the segment's file bytes at vaddr and keeps the image zero above its size |
| SegmentBytes.LoadSegmentsBytes | kernel/exec.c:115-132 | on success every loadable header was loaded in full, and memory reads as the loadable segments written in order over the starting memory |
| SegmentBytes.OverlayOutside | kernel/exec.c:130 | where no segment writes, the overlay reads as the memory below |
| SegmentBytes.OverlaySplit | kernel/exec.c:115 | writing a list of segments is writing its first part, then the rest |
| SegmentBytes.SegmentByteAt | kernel/exec.c:130 | byte j of segment k's data is in the image where no later segment writes over it |
| SegmentBytes.SegmentInImage | kernel/exec.c:115-132 | segment k holds file[off..off+filesz] at vaddr where no later segment overlaps it |
| SegmentBytes.SegmentZerosInImage | kernel/exec.c:127-130 | past its file bytes, segment k reads as zero up to memsz where no segment writes |
| UserStack.AllocStack | kernel/exec.c:140-147 | fails exactly when the allocator fails or two pages above PGROUNDUP(sz) pass MAXVA; otherwise the size is two pages higher, stackbase is one page below it, the lower page has lost PTE_U, and the upper page is user-writable |
| UserStack.StackPages | kernel/exec.c:142 | exactly the two pages above PGROUNDUP(sz) are added, each with R, U and W, and the old pages keep their permissions |
| UserStack.GuardedStack | kernel/exec.c:145-147 | after uvmclear the space still covers the stack and the page above the guard is user-writable |
| UserStack.Align16 | kernel/exec.c:153 | the result is a multiple of 16 at most 15 below the address |
| UserStack.PushStrings | kernel/exec.c:149-159 | on success there is one address per string, at most MAXARG, the earlier addresses kept; sp stays between stackbase and where it started, and is 16-aligned once a string is pushed; the pages are unchanged |
| UserStack.PushStringsStored | kernel/exec.c:152-158 | every pushed string sits NUL-terminated at its recorded address, below the previous one |
| UserStack.PushStringsFrame | kernel/exec.c:149-159 | the string loop writes only between its final sp and where it started |
| UserStack.PushPointers | kernel/exec.c:160-167 | on success the words at sp are the addresses followed by zero, sp is 16-aligned and above stackbase, and nothing else changes |
| UserStack.SetupStack | kernel/exec.c:140-167 | on success argc equals the number of strings (at most MAXARG), the size is PGROUNDUP(sz) plus two pages, and sp is 16-aligned inside the stack page; more than MAXARG strings fail |
| UserStack.StackContents | kernel/exec.c:149-167 | a built stack holds argv: pointer words then zero at sp, each pointing at its string and NUL inside the stack |
| UserStack.StackFrame | kernel/exec.c:140-167 | every byte below the stack page reads as before, and the guard page reads as zero |
| UserStack.StackGuard | kernel/exec.c:145 | the page below a built stack is mapped without user access |
| UserStack.OneArgumentFits | kernel/exec.c:140-167 | example: a single string shorter than PGSIZE - 64 always fits when the two pages can be had |
| UserStack.OneStringPushed | kernel/exec.c:149-159 | one string shorter than PGSIZE - 64 pushed on a fresh user-writable stack page succeeds, leaves room for the pointers above stackbase + 32, and maps no page |
| Exec.BaseStart | kernel/exec.c:171-173 | the last component starts just after the last '/' before n, or at 0 |
| Exec.Basename | kernel/exec.c:171-173 | the basename is a '/'-free suffix of the path, preceded by a '/' whenever it is shorter than the path |
| Exec.BasenameSnoc | kernel/exec.c:171-173 | the basename grows by each byte and restarts after each '/' |
| Exec.ProcName | kernel/exec.c:174 | the name is a prefix of the basename, shorter than 16 bytes, and the whole basename when that fits |
| Exec.LastComponent | kernel/exec.c:171-173 | the pointer walk ends at the start of the basename |
| Exec.NameOf | kernel/exec.c:171-174 | the walk and the copy produce ProcName |
| Exec.PointersGiveArgv | kernel/exec.c:160-169 | pointer words at sp to NUL-terminated copies make argv what main reads |
| Exec.ArgvOfStack | kernel/exec.c:149-169 | a stack holding the strings and the pointer array as built is one where main finds argv at sp |
| Exec.StackHoldsArgv | kernel/exec.c:149-169 | a successful stack setup hands main exactly argv |
| Exec.BuildImage | kernel/exec.c:112-167 | on success main finds argv at sp, argc is its length, sp is 16-aligned below the size, and every byte below the stack reads as the loadable segments written over zero |
| Exec.Commit | kernel/exec.c:169-181 | the process takes the new space, size, sp (also in a1), the ELF entry point and the name from the path |
| Exec.BuiltRuns | kernel/exec.c:112-183 | committing a built image gives a process that runs it |
| Exec.Kexec | kernel/exec.c:22-193 | the return value is -1 or argc; on -1 the process is untouched; on success the path resolved to an ELF image and the process runs it with the resolved argv; the caller's argv ends as the retry loop left it |
| Exec.ScriptAllocFailureDoublesArgv | kernel/exec.c:92-99 | a script whose interpreter string cannot be allocated fails and leaves argv [a0] as [a0, a0] |
| Exec.TwoSegmentsLoad | kernel/exec.c:115-132 | example: segments of 4096 bytes at 0x1000 and 10 bytes at 0x2000 both load, the image ends at 0x200a, and memory is their overlay |
| Exec.SecondSegmentLoads | kernel/exec.c:126-131 | a 10-byte segment at 0x2000 loads on top of an image of size 0x2000 when the file holds its bytes |
| Exec.TwoSegmentsBytes | kernel/exec.c:130 | example: in that image both segments hold their file bytes |
| Exec.TwoSegmentsStack | kernel/exec.c:140-167 | example: the stack above that image ends at 0x5000 and sp lies in 0x4000-0x4fff |
| SmashTokens.Strspn | user/smash.c:19-27 | the length of the longest prefix up to the NUL whose characters are all in the set |
| SmashTokens.Strcspn | user/smash.c:29-39 | the index of the first character in the set, or of the NUL or the end |
| SmashTokens.NextToken | user/smash.c:41-51 | a token is non-empty and NUL-free; the cursor strictly shrinks; no token means no cursor |
| SmashTokens.NextTokenWords | user/smash.c:41-51 | next_token hands out the first word, and the new cursor holds exactly the rest of the words |
| SmashTokens.Advance | user/smash.c:155-160 | one turn of the tokenize loop ends it when no words are left, and otherwise hands out the first word and continues with the rest |
| SmashTokens.TokensFromWords | user/smash.c:155-160 | the loop from a cursor yields the first n words left to it |
| SmashTokens.Tokenize | user/smash.c:155-161 | at most MAX_ARGS - 1 tokens |
| SmashTokens.TokenizeWords | user/smash.c:155-161 | smash's arguments are the first MAX_ARGS - 1 words of the line, each a word |
| SmashHistory.Initial | user/smash.c:98 | the ring starts empty with cmd_count 1 |
| SmashHistory.InitialAgrees | user/smash.c:98 | the empty ring holds the empty log |
| SmashHistory.Store | user/smash.c:176-181 | storing writes slot (cmd_count - 1) mod 100, touches no other slot and bumps cmd_count |
| SmashHistory.StoreAgrees | user/smash.c:176-181 | storing a command appends it to the log the ring holds |
| SmashHistory.Last | user/smash.c:130-131 | `!!` finds something exactly when a command was stored |
| SmashHistory.LastAgrees | user/smash.c:130-131 | `!!` recalls the newest command of the log |
| SmashHistory.Numbered | user/smash.c:132-135 | `!n` finds something exactly when n is one of the last 100 command numbers |
| SmashHistory.NumberedAgrees | user/smash.c:132-135 | `!n` recalls command n of the log exactly when it is one of the last 100 |
| SmashHistory.Int32 | user/smash.c:133 | the result is a 32-bit int congruent to the value, and equal to it when it fits |
| SmashHistory.PrefixLookup | user/smash.c:136-146 | whatever `!prefix` finds starts with the prefix |
| SmashHistory.PrefixScanAgrees | user/smash.c:138-145 | the backwards scan from any command finds the newest command at or below it, and still in the ring, that starts with the prefix |
| SmashHistory.PrefixLookupAgrees | user/smash.c:136-146 | `!prefix` recalls the newest of the last 100 commands that starts with the prefix |
| SmashHistory.Listing | user/smash.c:189-199 | the listing has at most 100 entries |
| SmashHistory.ListFromAgrees | user/smash.c:190-198 | the listing loop from any command still in the ring lists the log from there on with its numbers |
| SmashHistory.ListingAgrees | user/smash.c:189-199 | `history` lists the last 100 commands of the log with their numbers |
| SmashHistory.DistinctSlots | user/smash.c:177 | two commands fewer than 100 apart use different slots |
| Smash.StripNewline | user/smash.c:120 | exactly one trailing newline is removed, and nothing else |
| Smash.StripComment | user/smash.c:123-125 | the line is cut at its first '#' |
| Smash.Prepare | user/smash.c:117-125 | the prepared line has no NUL and no '#' |
| Smash.PrepareNewline | user/smash.c:117-120 | a command followed by a newline reads as the command |
| Smash.PrepareComment | user/smash.c:123-125 | a command followed by a comment reads as the command |
| Smash.Expand | user/smash.c:128-146 | a line not starting with '!' is kept; a `!prefix` result starts with the prefix |
| Smash.ExpandAgrees | user/smash.c:128-146 | expansion against the ring gives what the log recalls |
| Smash.Segments | user/smash.c:210-219 | the stages are pipe-free and joined by "&#124;" give the words back |
| Smash.SegmentsJoin | user/smash.c:210-219 | splitting a line joined from pipe-free stages gives those stages back |
| Smash.FirstPipeJoin | user/smash.c:210-213 | the first "&#124;" of a joined line is the one right after its first stage |
| Smash.Background | user/smash.c:166-172 | a trailing "&" is removed and reported, and nothing else changes |
| Smash.Decide | user/smash.c:149-219 | skip exactly for no words or a lone "&"; stored exactly for exit, cd and pipelines; `history` lists the ring, timed exactly for a second word "-t"; exit exactly when the first word is "exit"; cd exactly for "cd", with the second word as its path if there is one; otherwise a pipeline whose stages are the pipe-free Segments of the words less a trailing "&", in the background exactly when there was one |
| Smash.Step | user/smash.c:117-219 | "event not found" exactly when expansion fails, and then nothing changes |
| Smash.StepRecalls | user/smash.c:117-219 | against the log, a turn recalls the line's reference and decides on the recalled command |
| Smash.StepAgrees | user/smash.c:174-181 | a turn keeps the ring in agreement with the log plus what it stored |
| Smash.BlankSkipped | user/smash.c:163 | a blank or comment-only line does nothing and stores nothing |
| Smash.Extend | user/smash.c:111-219 | one more line's turn keeps the ring in agreement with the log and adds one action |
| Smash.Run | user/smash.c:111-219 | the turns of all lines in order, each on the history the earlier lines left; the ring agrees with the log and there is one action per line |
| Smash.RunAction | user/smash.c:111-219 | line k's action is its turn on the history after lines 0 to k-1 |
| Smash.Shell | user/smash.c:111-219 | the ring agrees with the stored commands; the loop runs one action per line until the lines run out or an exit, which is last; history, actions and stored commands are exactly Run of the lines read |
| SmashStage.Redirections | user/smash.c:246-265 | syntax error exactly when the stage ends in an operator; every operator applied is one of `<`, `>`, `>>` |
| SmashStage.RedirectionsComplete | user/smash.c:246-265 | every operator with a word after it is applied with that word |
| SmashStage.RedirectionsSound | user/smash.c:246-265 | every applied redirection comes from an operator and the word after it |
| SmashStage.Stdin | user/smash.c:253-255 | input comes from the last `<`, if any |
| SmashStage.Stdout | user/smash.c:256-262 | output goes to the last `>` or `>>`, if any, appending for `>>` |
| SmashStage.RootPath | user/smash.c:71-79 | "/" followed by as much of cmd as fits 127 bytes |
| SmashStage.Candidates | user/smash.c:58-90 | a command with '/' is tried as is; otherwise "/cmd" (cut to fit), then cmd |
| SmashStage.Applied | user/smash.c:246-265 | the files the loop opens, in order, before it stops; equal to the redirections whenever there is no syntax error |
| SmashStage.AppliedComplete | user/smash.c:246-265 | every operator with a word after it has its file opened, even when a later operator dangles |
| SmashStage.AppliedSound | user/smash.c:246-265 | every file opened comes from an operator and the word after it |
| SmashStage.StageChild | user/smash.c:245-268 | syntax error exactly when the stage ends in an operator; otherwise argv is the words before the first operator, none being an operator; every outcome records the files opened, including those before a syntax error; stdin and stdout follow the opens |
| SmashStage.StageOpens | user/smash.c:246-265 | whichever way the child ends, it has opened exactly the files named after its operators |
| SmashStage.EveryOperatorApplies | user/smash.c:246-265 | example: `cmd < inf > outf` opens both files and redirects both input and output |
| SmashStage.TruncatesBeforeSyntaxError | user/smash.c:246-265 | example: `cmd > f >` opens (and truncates) f, then stops with a syntax error |
| SmashStage.BothOutputsOpened | user/smash.c:256-262 | example: `cmd > a > b` opens both files; only b becomes standard output |
| SmashStage.LastInputWins | user/smash.c:253-255 | example: of two `<`, the last one wins |
| MyShell.ReadLine | user/myshell.c:23-34 | the line is a terminator-free prefix of the input, shorter than n; a shorter line stops at a terminator, which is consumed |
| MyShell.ReadLineStops | user/myshell.c:23-34 | a line shorter than the buffer is read up to its terminator, and the rest follows it |
| MyShell.ReadLineText | user/myshell.c:23-34 | one readline loses nothing but the terminator it consumes |
| MyShell.Cap | user/myshell.c:39 | split keeps max - 1 arguments, leaving room for the null |
| MyShell.Split | user/myshell.c:37-48 | the arguments are the first max - 1 blank-separated words of the C string |
| MyShell.SkipBlanks | user/myshell.c:40 | the index of the first non-blank, with only blanks skipped |
| MyShell.WordEnd | user/myshell.c:43 | the index of the first blank after a non-empty word |
| MyShell.Arguments | user/myshell.c:81 | at most 15 arguments |
| MyShell.DropAmp | user/myshell.c:95-100 | a last "&" is removed, and nothing else changes |
| MyShell.CmdSlots | user/myshell.c:95-100 | every argument is in its slot, except that a last "&" is nulled |
| MyShell.UpToNull | user/myshell.c:109-143 | exec's argv is the strings up to the first null slot (proved the only such sequence by UpToNullUnique) |
| MyShell.FirstPipe | user/myshell.c:103-106 | the first slot holding "&#124;", with none before it |
| MyShell.FirstRedirect | user/myshell.c:114-126 | the first `<` or `>` that has a slot after it, with none before |
| MyShell.Launch | user/myshell.c:102-146 | once built-ins and words are dealt with, runcmd always runs a pipeline or a spawned command |
| MyShell.Interpret | user/myshell.c:79-126 | nothing exactly for no words; exit and cd exactly for those first words; cd's path is the second word, if any |
| MyShell.RunCmd | user/myshell.c:79-82 | runcmd does nothing exactly when the line has no words |
| MyShell.InterpretPlain | user/myshell.c:95-149 | a command without operators spawns its words, less a last "&" that makes it a background job |
| MyShell.AfterSlot | user/myshell.c:105-143 | the argument vector after slot p is the words after it, less a last "&" |
| MyShell.InterpretPipe | user/myshell.c:102-111 | the first "&#124;" splits the words into a left and a right command, the right less a last "&" |
| MyShell.PipeAt | user/myshell.c:103-106 | the pipe loop stops at the first "&#124;" |
| MyShell.NoPipe | user/myshell.c:103-106 | with no "&#124;", the pipe loop runs to the end of the arguments |
| MyShell.InterpretRedirect | user/myshell.c:113-146 | with no pipe, the first `<` or `>` followed by a word names the file and ends the arguments |
| MyShell.RedirectAt | user/myshell.c:114-126 | the redirection loop stops at the first `<` or `>` with a word after it, when no operator comes before it |
| MyShell.OnlyFirstRedirect | user/myshell.c:113-126 | example: `cat < in > out` redirects input only |
| MyShell.Lines | user/myshell.c:152-162 | as written: each line run is non-empty and shorter than MAXLINE |
| MyShell.LinesIntended | user/myshell.c:152-162 | corrected: every non-empty line up to the end of the input, each terminator-free |
| MyShell.LinesPrefix | user/myshell.c:152-162 | what repl runs is a prefix of what it means to run |
| MyShell.LinesIntendedText | user/myshell.c:152-162 | the intended lines together lose nothing but terminators |
| MyShell.CrlfStopsEarly | user/myshell.c:29-159 | a two-line script with "\r\n" endings runs only its first line |
| MyShell.EmptyLine | user/myshell.c:159 | an empty line ends the session as written; the corrected loop skips it |
| MyShell.Session | user/myshell.c:85-86 | the commands run are a prefix of those read, with no exit before the last, and they stop early only at an exit |
| MyShell.ExitEndsSession | user/myshell.c:85-86 | nothing after the first exit runs |
| MyShell.Repl | user/myshell.c:152-162 | each command run is runcmd of the corresponding line |
| Decimal.Itoa | user/cat.c:26-28 | %d digits: at least one, no leading zero, and 1, 2 or 3 of them below 10, 100 and 1000 |
| Decimal.AtoiItoa | user/smash.c:133 | atoi of what %d printed, followed by a non-digit, is the number |
| Cat.Pad | user/cat.c:26-28 | the number is right-aligned in at least three columns then two spaces, and reads back with atoi |
| Cat.PadWidth | user/cat.c:26-28 | numbers below 1000 take exactly five columns |
| Cat.Step | user/cat.c:19-49 | as written: the line number grows only at a line start, by one; mid-line a character goes out as itself (with "$" before a '\n' for -E), or not at all |
| Cat.StepFixed | user/cat.c:33-39 | corrected: a second blank line in a row is dropped whole and the state is unchanged |
| Cat.StepsAgree | user/cat.c:33-39 | without -s both steps agree |
| Cat.NoFlagsCopies | user/cat.c:9-51 | with no flags the output equals the input |
| Cat.ShowEnds | user/cat.c:42-43 | the -E reference adds exactly one character per '\n' |
| Cat.EndsOnlyShowsEnds | user/cat.c:42-43 | with -E alone every '\n' becomes "$\n" |
| Cat.EndsMarked | user/cat.c:42-46 | with -E, whatever else, every '\n' written follows a '$' |
| Cat.Squeezed | user/cat.c:34-36 | reference for -s as written: drops each '\n' that follows a '\n', keeps all text and leaves no two '\n' adjacent |
| Cat.SqueezeExact | user/cat.c:33-39 | as written, -s alone equals Squeezed: exactly the '\n' right after a '\n' (written or dropped) is removed, and nothing else |
| Cat.SqueezeNoDouble | user/cat.c:34-36 | as written, -s never writes two adjacent '\n' |
| Cat.StepSqueezed | user/cat.c:33-39 | one step with -s as written writes no two adjacent newlines, and a written newline leaves the blank-run flag set |
| Cat.SqueezeDropsBlankLine | user/cat.c:34-36 | as written, -s turns "a\n\nb" into "a\nb" |
| Cat.SqueezeFixedKeepsBlankLine | user/cat.c:33-39 | corrected, -s keeps the single blank line of "a\n\nb" |
| Cat.SqueezedFixed | user/cat.c:33-39 | reference for the corrected -s: drops a blank line only after a blank line, and keeps all text |
| Cat.SqueezeFixedExact | user/cat.c:33-39 | corrected, -s alone equals SqueezedFixed: exactly the blank lines that follow a blank line are removed |
| Cat.SqueezeFixedNoBlankRun | user/cat.c:33-39 | corrected, -s alone never writes two blank lines in a row |
| Cat.SqueezeStep | user/cat.c:33-39 | one corrected step with -s alone keeps the output free of two blank lines in a row |
| Cat.PlainMidLine | user/cat.c:19-49 | inside a line, -n or -b copy up to and including the '\n' and are then at a line start |
| Cat.NumberLines | user/cat.c:22-29 | with -n every line gets the next number, k, k + 1, ... |
| Cat.NumberNonblankLines | user/cat.c:23-29 | with -b the non-empty lines get k, k + 1, ... and empty lines none |
| Cat.NonblankOverrides | user/cat.c:22-23 | with -b set, -n changes nothing |
| Cat.Letters | user/cat.c:64-73 | ok exactly when every letter is n, b, E or s, setting the matching flags; otherwise the error is a letter of the word that is none of them |
| Cat.Options | user/cat.c:60-75 | the words skipped all start with '-', the next does not, and an error is an unknown letter |
| Cat.Files | user/cat.c:84-92 | a failure names a file that is missing; no failure means every file was found |
| Cat.Main | user/cat.c:59-94 | an unknown option writes nothing and reports a letter that is no option; a file that cannot be opened is one of the arguments and is missing |
| Cat.FilesAppend | user/cat.c:84-92 | when xs can all be opened, the output for xs + ys is that of xs followed by that of ys, each file from a fresh state |
| Cat.FilesFirstMissing | user/cat.c:84-92 | cat stops at the first name that cannot be opened, reports it, and has written every earlier file in full |
| Cat.MainStdin | user/cat.c:77-81 | with only option words, cat filters standard input with those options and does not fail |
| Cat.MainFiles | user/cat.c:83-92 | with file arguments, cat is Files on them and never reads standard input |
| Cat.CopiesStdin | user/cat.c:77-81 | `cat` alone copies standard input |
| Cat.NumbersRestartPerFile | user/cat.c:84-92 | `cat -n x y` numbers both files from 1 |
| Cat.SqueezeFileDropsBlankLine | user/cat.c:34-36 | as written, `cat -s x` drops the only blank line of "a\n\nb" |

## Left out

- Locking and the log: `begin_op`/`end_op`, `ilock`/`iunlockput`. They do not change what exec computes.
- Freeing page tables (`proc_freepagetable`) on failure and on commit. The failure result
  keeps the old process as it was, and the new one gets the built space.
- File lookup: `namei` is a lookup in a map from paths to file contents.
- The page allocator: each allocation site (`kalloc` for the interpreter at each depth,
  `proc_pagetable`, each segment's `uvmalloc`, the stack's `uvmalloc`) takes a success flag
  from an oracle set. Running out of memory is that flag, or a size past MAXVA.
- `Vm.Uvmalloc`: a request with old and new size both 0 returns 0, which kexec reads as
  failure, as the code does.
- `UserStack.AllocStack`: the guard page loses only PTE_U, as `uvmclear` does. It stays mapped.
- Unsigned wrap of the stack pointer: sp is an integer. Where the unsigned value would wrap,
  the model fails at the `sp < stackbase` test, and the source fails at the later `copyout`.
- `ustack[argc] = 0` with argc == MAXARG would write past `ustack`. kexec is only called with
  fewer than MAXARG strings, so it is unreachable. `Exec.Kexec` requires that.
- `LoadSegLoop`: counts in unbounded integers. Its 32-bit wrap is modelled separately by
  `Counter32`/`LoadSegNeverExits`, because the wrap needs a segment of more than 2^32 - PGSIZE
  bytes, and the loop then never ends while the file supplies bytes (see Findings).
- `Segments.LoadSegments`: states well-formedness and growth only. The bytes it leaves are
  stated by `SegmentBytes.LoadSegmentsBytes`.
- smash input: `gets` is not shown. The lines are a parameter, and the end of the list is end
  of input. Script mode (a file given as argument) reads the same way.
- smash output: prompts, `getcwd`, `uptime` and the duration column of `history -t`
  (timings are not modelled).
- smash processes: `fork`, `pipe`, `dup`, `close`, `wait` and exit statuses. A stage is
  described by its argv, its input and output files, and the paths `execvp` tries.
- File open failures in the shells' children, and `chdir` failures.
- `cmd_count` overflow past 2^31 commands.
- History entries are not cut at 128 bytes: `gets` already bounds the line.
- A stage whose argv would start with a null pointer is the `NoCommand` child.
- myshell processes: `fork`, `exec`, `wait`, `pipe`, `printf`. A command is described by what
  it would run.
- myshell `main`: the choice between standard input and a script file. Both are `repl` over
  an input sequence.
- myshell with a last "&" and no "|" before it: `argc` still counts the nulled slot, so the
  pipe loop calls `strcmp` on a null pointer. So does the redirection loop, unless an earlier
  `<` or `>` with a word after it stops it first. The model treats the null slot as matching
  nothing.
- cat read errors (`n < 0` exits with status 1), and the 512-byte read chunking. The state
  carries across reads, so chunking does not change the output.
- cat's `line` counter overflow past 2^31 lines.
- `printf` and `write`: output is the sequence of characters written.

## Findings

| source | as written | input that shows it | evidently intended | confidence | as-written member | corrected member |
|---|---|---|---|---|---|---|
| kernel/exec.c:92-100 | argv is shifted up before the interpreter string is allocated; a failed `kalloc` returns -1 with the shift in place | a script with argv ["script"] whose interpreter allocation fails: argv is left ["script", "script"], so a caller freeing each argv string frees the first one twice | allocate first, shift only on success, so a failure leaves argv as it was | not executed; medium | Shebang.InsertInterpreterAsWritten, Shebang.ShiftBeforeAllocDuplicates, Exec.ScriptAllocFailureDoublesArgv | Shebang.InsertInterpreter, Shebang.InsertInterpreterAgrees |
| kernel/exec.c:198-201 | the chunk counter `i` is a 32-bit `uint`, so `i += PGSIZE` wraps after the chunk at 2^32 - PGSIZE | a segment with filesz 0xFFFFF001: `i < sz` holds at every turn, and the loop re-reads from chunk 0 for as long as the file supplies bytes | a 64-bit counter, so the loop ends after the last chunk | not executed; low (needs a file over 4 GiB) | Segments.Counter32, Segments.LoadSegNeverExits | Segments.LoadSegLoop, Segments.LoadSegSpec |
| user/myshell.c:23-34, 152-162 | `readline` stops at '\r' and leaves '\n' unread; `repl` stops at the first read of length 0 | the script "ls\r\necho\r\n": the '\n' after "ls\r" reads as an empty line and the session ends after "ls"; any empty line ends a session too | skip empty lines and stop only at the end of the input | not executed; medium | MyShell.Lines, MyShell.CrlfStopsEarly, MyShell.EmptyLine | MyShell.LinesIntended, MyShell.LinesIntendedText, MyShell.LinesPrefix |
| user/cat.c:34-39 | with -s, every '\n' sets `blank_run`, so a '\n' right after any line end is dropped | `cat -s` on "a\n\nb" writes "a\nb": the only blank line is removed | drop a blank line only when the previous line was blank too | not executed; high | Cat.Step, Cat.SqueezeDropsBlankLine, Cat.SqueezeFileDropsBlankLine | Cat.StepFixed, Cat.SqueezeFixedKeepsBlankLine, Cat.SqueezeFixedExact, Cat.SqueezeFixedNoBlankRun |
