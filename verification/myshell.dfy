/**
 The myshell shell (user/myshell.c): readline, the space splitter, the
 interpretation of one command line (built-ins, a trailing "&", one pipe, one
 redirection) and the read-eval loop. Processes, pipes and file descriptors
 are not modelled: a line is interpreted into the Command it would carry out.
 */
module MyShell {
  import opened Outcome
  import opened WordScan

  const MAXARGS: nat := 16
  const MAXLINE: nat := 256

  /** The characters split separates arguments by. */
  const BLANKS: seq<char> := " \t"

  /** The characters that end a line for readline: newline and carriage return. */
  predicate Terminator(c: char) {
    c == '\n' || c == '\r'
  }

  /** A line holds no terminator. */
  predicate OneLine(s: seq<char>) {
    forall i :: 0 <= i < |s| ==> !Terminator(s[i])
  }

  /**
   readline(fd, buf, n): read characters until a newline or carriage return
   (consumed, not stored), the end of the input, or n - 1 stored characters.
   The result pairs the stored line with the input left unread.
   */
  function ReadLine(input: seq<char>, n: int): (r: (seq<char>, seq<char>))
    ensures |r.0| <= |input| && r.0 == input[..|r.0|]
    ensures OneLine(r.0)
    ensures r.0 == [] || |r.0| < n
    ensures |r.0| < n - 1 && |r.0| < |input| ==>
              Terminator(input[|r.0|]) && r.1 == input[|r.0| + 1..]
    ensures !(|r.0| < n - 1 && |r.0| < |input|) ==> r.1 == input[|r.0|..]
    decreases |input|
  {
    if n <= 1 || input == [] then ([], input)
    else if Terminator(input[0]) then ([], input[1..])
    else
      var t := ReadLine(input[1..], n - 1);
      assert [input[0]] + t.0 == input[..|t.0| + 1];
      assert input[1..][|t.0|..] == input[|t.0| + 1..];
      ([input[0]] + t.0, t.1)
  }

  /** How many arguments split(buf, argv, max) keeps: max - 1, leaving room for the null. */
  function Cap(max: int): (c: nat)
    ensures c + 1 <= max || c == 0
    ensures max > 1 ==> c + 1 == max
  {
    if max > 1 then max - 1 else 0
  }

  /**
   split(buf, argv, max): the arguments are the first Cap(max) blank-separated
   words of the C string in buf.
   */
  method Split(buf: seq<char>, max: int) returns (argv: seq<seq<char>>)
    ensures argv == Take(Words(CString(buf), BLANKS), Cap(max))
    ensures forall k :: 0 <= k < |argv| ==> IsWord(argv[k], BLANKS)
  {
    var s := CString(buf);
    var cap := Cap(max);
    argv := [];
    var i := 0;
    while i < |s| && |argv| < cap
      invariant i <= |s| && |argv| <= cap
      invariant Take(Words(s, BLANKS), cap) == argv + Take(Words(s[i..], BLANKS), cap - |argv|)
      decreases |s| - i
    {
      var j := SkipBlanks(s, i);
      if j == |s| {
        NoWords(s[i..], BLANKS);
        i := j;
        break;
      }
      var k := WordEnd(s, j);
      var next := if k < |s| then k + 1 else k;
      SplitTurn(s, i, j, k, next, argv, cap);
      argv := argv + [s[j..k]];
      i := next;
    }
    EndOfSplit(s, i, cap - |argv|);
    assert argv + [] == argv;
    WordsAreWords(s, BLANKS);
  }

  /** The blank-skipping loop of split: the index of the first non-blank from i, or |s|. */
  method SkipBlanks(s: seq<char>, i: nat) returns (j: nat)
    requires i <= |s|
    ensures i <= j <= |s| && AllIn(s[i..j], BLANKS)
    ensures j < |s| ==> s[j] !in BLANKS
    ensures j == |s| ==> AllIn(s[i..], BLANKS)
  {
    j := i;
    while j < |s| && s[j] in BLANKS
      invariant i <= j <= |s|
      invariant forall m :: i <= m < j ==> s[m] in BLANKS
    {
      j := j + 1;
    }
    assert forall m :: 0 <= m < j - i ==> s[i..j][m] == s[i + m];
  }

  /** The word-scanning loop of split: the index of the first blank from j, or |s|. */
  method WordEnd(s: seq<char>, j: nat) returns (k: nat)
    requires j < |s| && s[j] !in BLANKS
    ensures j < k <= |s| && IsWord(s[j..k], BLANKS)
    ensures k < |s| ==> s[k] in BLANKS
  {
    k := j + 1;
    while k < |s| && s[k] !in BLANKS
      invariant j < k <= |s|
      invariant forall m :: j <= m < k ==> s[m] !in BLANKS
    {
      k := k + 1;
    }
    assert forall m :: 0 <= m < k - j ==> s[j..k][m] == s[j + m];
  }

  /** One turn of split: blanks s[i..j], then the word s[j..k], then a blank (skipped) or the end. */
  lemma SplitStep(s: seq<char>, i: nat, j: nat, k: nat, next: nat, c: nat)
    requires i <= j < k <= |s| && c > 0
    requires AllIn(s[i..j], BLANKS) && IsWord(s[j..k], BLANKS)
    requires k < |s| ==> s[k] in BLANKS
    requires next == if k < |s| then k + 1 else k
    ensures Take(Words(s[i..], BLANKS), c) == [s[j..k]] + Take(Words(s[next..], BLANKS), c - 1)
  {
    var rest := s[k..];
    assert s[i..] == s[i..j] + s[j..k] + rest;
    WordsStep(s[i..j], s[j..k], rest, BLANKS);
    if k < |s| {
      assert rest[1..] == s[next..];
    } else {
      assert s[next..] == [];
      NoWords([], BLANKS);
    }
    TakeCons(s[j..k], Words(s[next..], BLANKS), c);
  }

  /** The invariant of split survives one turn. */
  lemma SplitTurn(s: seq<char>, i: nat, j: nat, k: nat, next: nat, argv: seq<seq<char>>, cap: nat)
    requires i <= j < k <= |s| && |argv| < cap
    requires AllIn(s[i..j], BLANKS) && IsWord(s[j..k], BLANKS)
    requires k < |s| ==> s[k] in BLANKS
    requires next == if k < |s| then k + 1 else k
    ensures argv + Take(Words(s[i..], BLANKS), cap - |argv|) ==
            (argv + [s[j..k]]) + Take(Words(s[next..], BLANKS), cap - |argv + [s[j..k]]|)
  {
    var c := cap - |argv|;
    SplitStep(s, i, j, k, next, c);
    var t := Take(Words(s[next..], BLANKS), c - 1);
    assert argv + ([s[j..k]] + t) == (argv + [s[j..k]]) + t;
  }

  /** When split stops, no word it would keep is left. */
  lemma EndOfSplit(s: seq<char>, i: nat, c: nat)
    requires i <= |s|
    requires i == |s| || c == 0
    ensures Take(Words(s[i..], BLANKS), c) == []
  {
    if i == |s| {
      assert s[i..] == [];
      NoWords([], BLANKS);
    }
  }

  /** The arguments runcmd works on: split(line, argv, MAXARGS). */
  function Arguments(line: seq<char>): (argv: seq<seq<char>>)
    ensures |argv| <= MAXARGS - 1
  {
    Take(Words(CString(line), BLANKS), Cap(MAXARGS))
  }

  /** What runcmd does with one line. */
  datatype Command =
    | Nothing                                     // no arguments
    | ExitShell                                   // the exit built-in
    | ChangeDir(path: Option<seq<char>>)          // cd; None prints "cd: missing path"
    | Pipeline(left: seq<seq<char>>, right: seq<seq<char>>)
    | Spawn(argv: seq<seq<char>>, infile: Option<seq<char>>, outfile: Option<seq<char>>, background: bool)

  /** The argv array of runcmd: a slot is a string or null. */
  type Slots = seq<Option<seq<char>>>

  /** A command runs in the background when its last argument is "&". */
  predicate Background(argv: seq<seq<char>>) {
    argv != [] && argv[|argv| - 1] == "&"
  }

  /** The arguments without a last "&". */
  function DropAmp(ws: seq<seq<char>>): (r: seq<seq<char>>)
    ensures Background(ws) ==> |r| + 1 == |ws| && r == ws[..|r|]
    ensures !Background(ws) ==> r == ws
  {
    if Background(ws) then ws[..|ws| - 1] else ws
  }

  /** The argv array after the "&" check: each argument in its slot, a last "&" nulled. */
  function CmdSlots(argv: seq<seq<char>>): (slots: Slots)
    ensures |slots| == |argv|
    ensures forall k :: 0 <= k < |argv| ==>
              slots[k] == if Background(argv) && k == |argv| - 1 then None else Some(argv[k])
  {
    seq(|argv|, k requires 0 <= k < |argv| =>
      if Background(argv) && k == |argv| - 1 then None else Some(argv[k]))
  }

  /**
   The argument vector exec sees at slots[from..]: the strings up to the
   first null slot or the end of the array.
   */
  function UpToNull(slots: Slots, from: nat): (r: seq<seq<char>>)
    requires from <= |slots|
    ensures from + |r| <= |slots|
    ensures forall k :: 0 <= k < |r| ==> slots[from + k] == Some(r[k])
    ensures from + |r| == |slots| || slots[from + |r|].None?
    decreases |slots| - from
  {
    if from == |slots| || slots[from].None? then []
    else [slots[from].value] + UpToNull(slots, from + 1)
  }

  /** The strings up to the null are the only sequence with the three properties above. */
  lemma {:induction false} UpToNullUnique(slots: Slots, from: nat, r: seq<seq<char>>)
    requires from + |r| <= |slots|
    requires forall k :: 0 <= k < |r| ==> slots[from + k] == Some(r[k])
    requires from + |r| == |slots| || slots[from + |r|].None?
    ensures UpToNull(slots, from) == r
    decreases |r|
  {
    if r != [] {
      assert slots[from + 0] == Some(r[0]);
      assert forall k :: 0 <= k < |r| - 1 ==> r[1..][k] == r[k + 1];
      UpToNullUnique(slots, from + 1, r[1..]);
      assert r == [r[0]] + r[1..];
    }
  }

  /** The first slot from i on holding "|", or |slots|; a null slot matches nothing. */
  function FirstPipe(slots: Slots, i: nat): (p: nat)
    requires i <= |slots|
    ensures i <= p <= |slots|
    ensures p < |slots| ==> slots[p] == Some("|")
    ensures forall k :: i <= k < p ==> slots[k] != Some("|")
    decreases |slots| - i
  {
    if i == |slots| then i
    else if slots[i] == Some("|") then i
    else FirstPipe(slots, i + 1)
  }

  predicate IsRedirect(slot: Option<seq<char>>) {
    slot == Some("<") || slot == Some(">")
  }

  /** The first slot from i on holding "<" or ">" with a slot after it, or |slots|. */
  function FirstRedirect(slots: Slots, i: nat): (q: nat)
    requires i <= |slots|
    ensures i <= q <= |slots|
    ensures q < |slots| ==> q + 1 < |slots| && IsRedirect(slots[q])
    ensures forall k :: i <= k < q ==> !(IsRedirect(slots[k]) && k + 1 < |slots|)
    decreases |slots| - i
  {
    if i == |slots| then i
    else if IsRedirect(slots[i]) && i + 1 < |slots| then i
    else FirstRedirect(slots, i + 1)
  }

  /**
   The part of runcmd after the "&" check: the first "|" splits a pipeline;
   otherwise the first "<" or ">" that has a slot after it names the file
   (null when that slot is the nulled "&") and ends the argument vector.
   */
  function Launch(slots: Slots, background: bool): (c: Command)
    ensures c.Pipeline? || c.Spawn?
  {
    var p := FirstPipe(slots, 0);
    if p < |slots| then
      Pipeline(UpToNull(slots[p := None], 0), UpToNull(slots, p + 1))
    else
      var q := FirstRedirect(slots, 0);
      if q < |slots| then
        var file := slots[q + 1];
        Spawn(UpToNull(slots[q := None], 0),
              if slots[q] == Some("<") then file else None,
              if slots[q] == Some(">") then file else None,
              background)
      else Spawn(UpToNull(slots, 0), None, None, background)
  }

  predicate Builtin(w: seq<char>) {
    w == "exit" || w == "cd"
  }

  predicate NotOperator(w: seq<char>) {
    w != "|" && w != "<" && w != ">"
  }

  /** runcmd on its arguments: exit and cd first, then the "&" check, then Launch. */
  function Interpret(argv: seq<seq<char>>): (c: Command)
    ensures c.Nothing? <==> argv == []
    ensures c.ExitShell? <==> argv != [] && argv[0] == "exit"
    ensures c.ChangeDir? <==> argv != [] && argv[0] == "cd"
    ensures c.ChangeDir? ==> c.path == if |argv| < 2 then None else Some(argv[1])
  {
    if argv == [] then Nothing
    else if argv[0] == "exit" then ExitShell
    else if argv[0] == "cd" then ChangeDir(if |argv| < 2 then None else Some(argv[1]))
    else Launch(CmdSlots(argv), Background(argv))
  }

  /** runcmd(line). */
  function RunCmd(line: seq<char>): (c: Command)
    ensures c.Nothing? <==> Words(CString(line), BLANKS) == []
  {
    Interpret(Arguments(line))
  }

  /** A command without operators runs its arguments, less a last "&" that makes it a background job. */
  lemma InterpretPlain(argv: seq<seq<char>>)
    requires argv != [] && !Builtin(argv[0])
    requires forall k :: 0 <= k < |argv| ==> NotOperator(argv[k])
    ensures Interpret(argv) == Spawn(DropAmp(argv), None, None, Background(argv))
  {
    var slots := CmdSlots(argv);
    NoPipe(argv);
    assert FirstRedirect(slots, 0) == |slots|;
    UpToNullUnique(slots, 0, DropAmp(argv));
  }

  /**
   The first "|" splits a pipeline: the words before it run on the left, the
   words after it, less a last "&", on the right. Later "|" stay arguments
   of the right side, and "&" does not make a pipeline a background job.
   */
  lemma InterpretPipe(argv: seq<seq<char>>, p: nat)
    requires p < |argv| && argv[p] == "|" && !Builtin(argv[0])
    requires forall k :: 0 <= k < p ==> argv[k] != "|"
    ensures Interpret(argv) == Pipeline(argv[..p], DropAmp(argv[p + 1..]))
  {
    var slots := CmdSlots(argv);
    PipeAt(argv, p);
    UpToNullUnique(slots[p := None], 0, argv[..p]);
    AfterSlot(argv, p);
  }

  /** The argument vector that starts after slot p is the words after it, less a last "&". */
  lemma AfterSlot(argv: seq<seq<char>>, p: nat)
    requires p < |argv| && argv[p] != "&"
    ensures UpToNull(CmdSlots(argv), p + 1) == DropAmp(argv[p + 1..])
  {
    var slots := CmdSlots(argv);
    var b := argv[p + 1..];
    var r := DropAmp(b);
    assert Background(argv) <==> Background(b);
    assert forall k :: 0 <= k < |r| ==> r[k] == argv[p + 1 + k];
    UpToNullUnique(slots, p + 1, r);
  }

  /** The pipe loop of runcmd stops at the first "|" argument. */
  lemma PipeAt(argv: seq<seq<char>>, p: nat)
    requires p < |argv| && argv[p] == "|"
    requires forall k :: 0 <= k < p ==> argv[k] != "|"
    ensures FirstPipe(CmdSlots(argv), 0) == p
  {
    var slots := CmdSlots(argv);
    var q := FirstPipe(slots, 0);
    assert slots[p] == Some("|");
  }

  /**
   With no "|", the first "<" or ">" followed by a word names the file and
   ends the arguments; the words after the file are dropped, and so is any
   later redirection. The file is null when it is the last word "&".
   */
  lemma InterpretRedirect(argv: seq<seq<char>>, q: nat)
    requires q + 1 < |argv| && (argv[q] == "<" || argv[q] == ">") && !Builtin(argv[0])
    requires forall k :: 0 <= k < q ==> NotOperator(argv[k])
    requires forall k :: 0 <= k < |argv| ==> argv[k] != "|"
    ensures var file := if Background(argv) && q + 2 == |argv| then None else Some(argv[q + 1]);
            Interpret(argv) ==
            Spawn(argv[..q], if argv[q] == "<" then file else None, if argv[q] == ">" then file else None,
                  Background(argv))
  {
    var slots := CmdSlots(argv);
    NoPipe(argv);
    RedirectAt(argv, q);
    UpToNullUnique(slots[q := None], 0, argv[..q]);
  }

  /** With no "|" argument, the pipe loop finds nothing. */
  lemma NoPipe(argv: seq<seq<char>>)
    requires forall k :: 0 <= k < |argv| ==> argv[k] != "|"
    ensures FirstPipe(CmdSlots(argv), 0) == |argv|
  {
    var slots := CmdSlots(argv);
    var q := FirstPipe(slots, 0);
  }

  /** The redirection loop of runcmd stops at the first "<" or ">" with a word after it. */
  lemma RedirectAt(argv: seq<seq<char>>, q: nat)
    requires q + 1 < |argv| && (argv[q] == "<" || argv[q] == ">")
    requires forall k :: 0 <= k < q ==> NotOperator(argv[k])
    ensures FirstRedirect(CmdSlots(argv), 0) == q
  {
    var slots := CmdSlots(argv);
    var r := FirstRedirect(slots, 0);
    assert IsRedirect(slots[q]);
  }

  /** An example with both redirections on one line: only the first is carried out. */
  lemma OnlyFirstRedirect()
    ensures Interpret(["cat", "<", "in", ">", "out"]) == Spawn(["cat"], Some("in"), None, false)
  {
    var argv: seq<seq<char>> := ["cat", "<", "in", ">", "out"];
    InterpretRedirect(argv, 1);
    assert argv[..1] == ["cat"];
  }

  /**
   The lines repl hands to runcmd, AS WRITTEN: it stops at the first read
   that stores nothing, which is the end of the input but also an empty line,
   including the "\n" of a "\r\n" pair.
   */
  function Lines(input: seq<char>): (ls: seq<seq<char>>)
    ensures forall k :: 0 <= k < |ls| ==> ls[k] != [] && |ls[k]| < MAXLINE
    decreases |input|
  {
    var r := ReadLine(input, MAXLINE);
    if r.0 == [] then [] else [r.0] + Lines(r.1)
  }

  /**
   The lines repl evidently means to run: every non-empty line up to the end
   of the input, empty lines skipped.
   */
  function LinesIntended(input: seq<char>): (ls: seq<seq<char>>)
    ensures forall k :: 0 <= k < |ls| ==> ls[k] != [] && |ls[k]| < MAXLINE && OneLine(ls[k])
    decreases |input|
  {
    if input == [] then []
    else
      var r := ReadLine(input, MAXLINE);
      if r.0 == [] then LinesIntended(r.1) else [r.0] + LinesIntended(r.1)
  }

  /**
   A script of two commands with Windows line endings runs only its first
   command: the "\n" after the first "\r" reads as an empty line.
   */
  lemma CrlfStopsEarly(l1: seq<char>, l2: seq<char>)
    requires l1 != [] && |l1| < MAXLINE - 1 && OneLine(l1)
    requires l2 != [] && |l2| < MAXLINE - 1 && OneLine(l2)
    ensures Lines(l1 + "\r\n" + l2 + "\r\n") == [l1]
    ensures LinesIntended(l1 + "\r\n" + l2 + "\r\n") == [l1, l2]
  {
    var tail := "\n" + l2 + "\r\n";
    var input := l1 + "\r\n" + l2 + "\r\n";
    assert input == l1 + ['\r'] + tail;
    ReadLineStops(l1, '\r', tail, MAXLINE);
    CrlfTail(l2);
    assert LinesIntended(input) == [l1] + LinesIntended(tail);
  }

  /** After the first "\r": an empty line, then the second command and its own empty line. */
  lemma CrlfTail(l2: seq<char>)
    requires l2 != [] && |l2| < MAXLINE - 1 && OneLine(l2)
    ensures Lines("\n" + l2 + "\r\n") == []
    ensures LinesIntended("\n" + l2 + "\r\n") == [l2]
  {
    var rest := l2 + "\r\n";
    assert "\n" + l2 + "\r\n" == "\n" + rest;
    EmptyLine(rest);
    LastCrlfLine(l2);
  }

  /** An empty line stops the loop as written; the intended loop skips it. */
  lemma EmptyLine(rest: seq<char>)
    ensures Lines("\n" + rest) == []
    ensures LinesIntended("\n" + rest) == LinesIntended(rest)
  {
    assert "\n" + rest == [] + ['\n'] + rest;
    ReadLineStops([], '\n', rest, MAXLINE);
  }

  /** The last line of a Windows script is its command alone. */
  lemma LastCrlfLine(l: seq<char>)
    requires l != [] && |l| < MAXLINE - 1 && OneLine(l)
    ensures LinesIntended(l + "\r\n") == [l]
  {
    var nl: seq<char> := "\n";
    assert l + "\r\n" == l + ['\r'] + nl;
    ReadLineStops(l, '\r', nl, MAXLINE);
    EmptyLine([]);
    assert nl + [] == nl;
  }

  /** A line shorter than the buffer is read up to its terminator, which is consumed. */
  lemma {:induction false} ReadLineStops(line: seq<char>, t: char, rest: seq<char>, n: int)
    requires OneLine(line) && Terminator(t) && |line| < n - 1
    ensures ReadLine(line + [t] + rest, n) == (line, rest)
    decreases |line|
  {
    var input := line + [t] + rest;
    if line == [] {
      assert input[0] == t && input[1..] == rest;
    } else {
      assert input[0] == line[0] && input[1..] == line[1..] + [t] + rest;
      assert !Terminator(input[0]);
      ReadLineStops(line[1..], t, rest, n - 1);
      var r := ReadLine(input[1..], n - 1);
      assert ReadLine(input, n) == ([input[0]] + r.0, r.1);
      assert [line[0]] + line[1..] == line;
    }
  }

  /** What repl runs is a prefix of what it means to run. */
  lemma {:induction false} LinesPrefix(input: seq<char>)
    ensures |Lines(input)| <= |LinesIntended(input)|
    ensures Lines(input) == LinesIntended(input)[..|Lines(input)|]
    decreases |input|
  {
    var r := ReadLine(input, MAXLINE);
    if r.0 != [] {
      LinesPrefix(r.1);
    }
  }

  /** The characters of input other than line terminators. */
  function Text(input: seq<char>): seq<char>
    decreases |input|
  {
    if input == [] then []
    else if Terminator(input[0]) then Text(input[1..])
    else [input[0]] + Text(input[1..])
  }

  lemma {:induction false} TextAppend(a: seq<char>, b: seq<char>)
    ensures Text(a + b) == Text(a) + Text(b)
    decreases |a|
  {
    if a != [] {
      assert (a + b)[1..] == a[1..] + b;
      TextAppend(a[1..], b);
    } else {
      assert a + b == b;
    }
  }

  lemma {:induction false} TextOfLine(line: seq<char>)
    requires OneLine(line)
    ensures Text(line) == line
    decreases |line|
  {
    if line != [] {
      TextOfLine(line[1..]);
    }
  }

  /** One readline keeps every character but the terminator it consumes. */
  lemma ReadLineText(input: seq<char>)
    ensures var r := ReadLine(input, MAXLINE); Text(input) == r.0 + Text(r.1)
  {
    var r := ReadLine(input, MAXLINE);
    var k := |r.0|;
    assert input == r.0 + input[k..];
    TextAppend(r.0, input[k..]);
    TextOfLine(r.0);
    if k < MAXLINE - 1 && k < |input| {
      assert input[k..][1..] == input[k + 1..];
    }
  }

  /** The intended loop loses nothing but the line terminators. */
  lemma {:induction false} LinesIntendedText(input: seq<char>)
    ensures Concat(LinesIntended(input)) == Text(input)
    decreases |input|
  {
    if input != [] {
      var r := ReadLine(input, MAXLINE);
      ReadLineText(input);
      LinesIntendedText(r.1);
      if r.0 != [] {
        ConcatCons(r.0, LinesIntended(r.1));
      }
    }
  }

  function Concat(ls: seq<seq<char>>): seq<char> {
    if ls == [] then [] else ls[0] + Concat(ls[1..])
  }

  lemma ConcatCons(l: seq<char>, ls: seq<seq<char>>)
    ensures Concat([l] + ls) == l + Concat(ls)
  {
    assert ([l] + ls)[1..] == ls;
  }

  /**
   The commands a session carries out: each line's command in turn, up to
   and including the first exit.
   */
  function Session(cmds: seq<Command>): (cs: seq<Command>)
    ensures |cs| <= |cmds| && cs == cmds[..|cs|]
    ensures forall k :: 0 <= k < |cs| - 1 ==> !cs[k].ExitShell?
    ensures |cs| < |cmds| ==> cs != [] && cs[|cs| - 1].ExitShell?
  {
    if cmds == [] then []
    else if cmds[0].ExitShell? then [cmds[0]]
    else
      var rest := Session(cmds[1..]);
      assert [cmds[0]] + rest == cmds[..|rest| + 1];
      [cmds[0]] + rest
  }

  /** The first exit ends the session: the commands after it never run. */
  lemma {:induction false} ExitEndsSession(cmds: seq<Command>, k: nat)
    requires k < |cmds| && cmds[k].ExitShell?
    requires forall j :: 0 <= j < k ==> !cmds[j].ExitShell?
    ensures Session(cmds) == cmds[..k + 1]
    decreases k
  {
    if k > 0 {
      assert !cmds[0].ExitShell?;
      assert forall j :: 0 <= j < k - 1 ==> cmds[1..][j] == cmds[j + 1];
      ExitEndsSession(cmds[1..], k - 1);
      assert cmds[..k + 1] == [cmds[0]] + cmds[1..][..k];
    }
  }

  /** repl(fd): the session over the commands of the lines the loop reads. */
  function Repl(input: seq<char>): (cs: seq<Command>)
    ensures |cs| <= |Lines(input)|
    ensures forall k :: 0 <= k < |cs| ==> cs[k] == RunCmd(Lines(input)[k])
  {
    var ls := Lines(input);
    Session(seq(|ls|, k requires 0 <= k < |ls| => RunCmd(ls[k])))
  }
}
