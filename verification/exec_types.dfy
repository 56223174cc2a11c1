/**
 Vocabulary shared by the parts of the process-image loader (kernel/exec.c):
 the kernel's fixed capacities, the named byte values it compares against,
 the reasons a load fails, and the environment a load runs in.
 */
module ExecTypes {
  import opened LittleEndian

  /** Capacity of an argv array, terminator included (param.h). */
  const MAXARG: nat := 32
  /** Capacity of a path buffer, terminator included (param.h). */
  const MAXPATH: nat := 128
  /** Pages of user stack above the guard page (param.h). */
  const USERSTACK: nat := 1
  /** Size of the process name field `p->name`, terminator included (proc.h). */
  const NAME_LEN: nat := 16
  /** Script indirections one load may follow. */
  const MAX_INDIRECTIONS: nat := 6

  const NUL: byte := 0
  const TAB: byte := 9
  const LF: byte := 10
  const CR: byte := 13
  const SPACE: byte := 32
  const BANG: byte := 33
  const HASH: byte := 35
  const SLASH: byte := 47

  /** A path name, without its terminating NUL. */
  type Path = seq<byte>

  /** The bytes of a C string, without its terminating NUL. */
  type CStr = seq<byte>

  /** What makes bytes a C string's contents: no NUL before the terminator. */
  predicate NulFree(s: seq<byte>) {
    forall i :: 0 <= i < |s| ==> s[i] != NUL
  }

  /**
   Why a load failed. The source returns -1 for every one of them; the
   model keeps the exit apart so that properties can name it.
   */
  datatype Error =
    | NotFound             // namei found no inode for the path
    | NotExecutable        // header too short, unrecognised, or empty interpreter
    | TooManyIndirections  // a seventh "#!" header
    | TooManyArguments     // argv has no room for another entry
    | OutOfMemory          // kalloc or uvmalloc ran out of pages
    | EmptyImage           // uvmalloc returned size 0 for an empty first segment
    | BadSegment           // memsz < filesz, vaddr + memsz overflows, or vaddr unaligned
    | ShortRead            // a program header or segment read returned too few bytes
    | ArgumentsTooLarge    // the argument strings do not fit in the stack page
    | BadAddress           // copyout found a page it may not write

  /**
   Which allocations fail. The kernel's page allocator is outside the
   model, so each allocation site asks this oracle instead: the interpreter
   string at indirection d fails when d is in interpFails, the page table
   when pagetableFails, the segment of program header i when i is in
   segmentFails, and the stack when stackFails.
   */
  datatype Alloc = Alloc(interpFails: set<nat>, pagetableFails: bool, segmentFails: set<nat>, stackFails: bool)

  /** The file system (path to file contents) and the allocator a load runs against. */
  datatype Env = Env(files: map<Path, seq<byte>>, alloc: Alloc)
}
