/**
 One turn of the smash shell's main loop (user/smash.c:117-219): the line
 is cleaned, `!` history references are expanded, the words are taken, a
 trailing `&` marks a background job, the builtins exit, history and cd are
 decided, and an external command line is split into pipeline stages. Each
 stage's redirections (user/smash.c:246-265) and the paths execvp tries
 (user/smash.c:58-90) are modelled per stage. The line gets reads is a
 parameter.
 */
module Smash {
  import opened Outcome
  import opened WordScan
  import opened SmashTokens
  import opened SmashHistory
  import Decimal

  /** Line 120: one trailing newline is dropped, and nothing else. */
  function StripNewline(s: seq<char>): (r: seq<char>)
    ensures s == r || s == r + ['\n']
    ensures s != [] && s[|s| - 1] == '\n' ==> s == r + ['\n']
  {
    if s != [] && s[|s| - 1] == '\n' then s[..|s| - 1] else s
  }

  /** Lines 123-125: the line ends at its first '#'. */
  function StripComment(s: seq<char>): (r: seq<char>)
    ensures |r| <= |s| && r == s[..|r|] && '#' !in r
    ensures |r| < |s| ==> s[|r|] == '#'
  {
    if s == [] || s[0] == '#' then []
    else
      var t := StripComment(s[1..]);
      assert forall i :: 1 <= i < |t| + 1 ==> s[i] == s[1..][i - 1];
      [s[0]] + t
  }

  /** The line the loop works on: the C string gets filled, without its newline and its comment. */
  function Prepare(raw: seq<char>): (line: seq<char>)
    ensures '\0' !in line && '#' !in line
  {
    StripComment(StripNewline(CString(raw)))
  }

  /** A command followed by a newline is read as the command alone. */
  lemma PrepareNewline(cmd: seq<char>)
    requires '\0' !in cmd && '#' !in cmd
    ensures Prepare(cmd + ['\n']) == cmd
  {
    CStringNulFree(cmd + ['\n']);
    assert StripNewline(cmd + ['\n']) == cmd;
    StripCommentNone(cmd);
  }

  /** A command followed by a comment is read as the command alone. */
  lemma PrepareComment(cmd: seq<char>, comment: seq<char>)
    requires '\0' !in cmd && '#' !in cmd
    ensures Prepare(cmd + ['#'] + comment) == cmd
  {
    var pre := cmd + ['#'];
    var c := CString(comment);
    CStringAppend(pre, comment);
    assert cmd + ['#'] + comment == pre + comment;
    var r := if c == [] then [] else StripNewline(c);
    assert StripNewline(pre + c) == pre + r;
    assert pre + r == cmd + ['#'] + r;
    StripCommentAt(cmd, r);
  }

  /** The C string of a NUL-free prefix followed by more is the prefix and the C string of the rest. */
  lemma {:induction false} CStringAppend(pre: seq<char>, rest: seq<char>)
    requires '\0' !in pre
    ensures CString(pre + rest) == pre + CString(rest)
    decreases |pre|
  {
    if pre != [] {
      assert (pre + rest)[1..] == pre[1..] + rest;
      CStringAppend(pre[1..], rest);
      assert pre == [pre[0]] + pre[1..];
    } else {
      assert pre + rest == rest;
    }
  }

  lemma CStringNulFree(s: seq<char>)
    requires '\0' !in s
    ensures CString(s) == s
  {
  }

  lemma StripCommentNone(s: seq<char>)
    requires '#' !in s
    ensures StripComment(s) == s
  {
  }

  /** A line whose first '#' follows cmd is cut to cmd. */
  lemma {:induction false} StripCommentAt(cmd: seq<char>, rest: seq<char>)
    requires '#' !in cmd
    ensures StripComment(cmd + ['#'] + rest) == cmd
    decreases |cmd|
  {
    var s := cmd + ['#'] + rest;
    if cmd != [] {
      assert s[0] == cmd[0] && s[1..] == cmd[1..] + ['#'] + rest;
      StripCommentAt(cmd[1..], rest);
      assert cmd == [cmd[0]] + cmd[1..];
    }
  }

  /**
   Lines 128-146: a line starting with '!' is replaced by a stored command,
   `!!` the newest, `!n` number n (atoi of the digits, a 32-bit int), and
   `!prefix` the newest starting with prefix; None is "event not found".
   */
  function Expand(h: History, line: seq<char>): (r: Option<Entry>)
    requires |h.slots| == MAX_HISTORY
    ensures line == [] || line[0] != '!' ==> r == Some(line)
    ensures r.Some? && line != [] && line[0] == '!' && !(|line| > 1 && (line[1] == '!' || Decimal.IsDigit(line[1]))) ==>
              StartsWith(r.value, line[1..])
  {
    if line == [] || line[0] != '!' then Some(line)
    else if |line| > 1 && line[1] == '!' then Last(h)
    else if |line| > 1 && Decimal.IsDigit(line[1]) then Numbered(h, Int32(Decimal.Atoi(line[1..])))
    else PrefixLookup(h, line[1..])
  }

  /** The reference: what a `!` reference names in the log of stored commands. */
  function Recall(log: seq<Entry>, line: seq<char>): Option<Entry> {
    if line == [] || line[0] != '!' then Some(line)
    else if |line| > 1 && line[1] == '!' then
      if log == [] then None else Some(log[|log| - 1])
    else if |line| > 1 && Decimal.IsDigit(line[1]) then
      var n := Int32(Decimal.Atoi(line[1..]));
      if Recent(log, n) then Some(log[n - 1]) else None
    else
      var j := NewestIndex(log, line[1..], Oldest(|log|), |log|);
      if j.None? then None else Some(log[j.value])
  }

  /** Expansion against the ring recalls what the log holds. */
  lemma ExpandAgrees(h: History, log: seq<Entry>, line: seq<char>)
    requires Agrees(h, log)
    ensures Expand(h, line) == Recall(log, line)
  {
    if line != [] && line[0] == '!' {
      if |line| > 1 && line[1] == '!' {
        LastAgrees(h, log);
      } else if |line| > 1 && Decimal.IsDigit(line[1]) {
        NumberedAgrees(h, log, Int32(Decimal.Atoi(line[1..])));
      } else {
        PrefixLookupAgrees(h, log, line[1..]);
      }
    }
  }

  /** Words joined back with "|" between stages. */
  function Join(segs: seq<seq<seq<char>>>): (r: seq<seq<char>>)
    requires |segs| >= 1
    decreases |segs|
  {
    if |segs| == 1 then segs[0] else segs[0] + ["|"] + Join(segs[1..])
  }

  predicate PipeFree(ws: seq<seq<char>>) {
    forall i :: 0 <= i < |ws| ==> ws[i] != "|"
  }

  /** The index of the first "|" of ws, or |ws|. */
  function FirstPipe(ws: seq<seq<char>>): (p: nat)
    ensures p <= |ws| && forall i :: 0 <= i < p ==> ws[i] != "|"
    ensures p < |ws| ==> ws[p] == "|"
  {
    if ws == [] || ws[0] == "|" then 0
    else
      var p := FirstPipe(ws[1..]);
      assert forall i :: 1 <= i < p + 1 ==> ws[i] == ws[1..][i - 1];
      1 + p
  }

  /**
   Lines 210-219: every "|" ends a stage and the next stage starts after it;
   stages may be empty.
   */
  function Segments(ws: seq<seq<char>>): (segs: seq<seq<seq<char>>>)
    ensures |segs| >= 1 && Join(segs) == ws
    ensures forall k :: 0 <= k < |segs| ==> PipeFree(segs[k])
    decreases |ws|
  {
    var p := FirstPipe(ws);
    if p == |ws| then
      [ws]
    else
      var rest := Segments(ws[p + 1..]);
      var segs := [ws[..p]] + rest;
      assert segs[1..] == rest;
      assert ws == ws[..p] + ["|"] + ws[p + 1..];
      segs
  }

  /** The first "|" of a joined line is the one after the first stage. */
  lemma FirstPipeJoin(seg: seq<seq<char>>, rest: seq<seq<char>>)
    requires PipeFree(seg)
    ensures FirstPipe(seg + ["|"] + rest) == |seg|
  {
    var ws := seg + ["|"] + rest;
    assert forall i :: 0 <= i < |seg| ==> ws[i] == seg[i];
    assert ws[|seg|] == "|";
  }

  /** Splitting a line joined from pipe-free stages gives the stages back. */
  lemma {:induction false} SegmentsJoin(segs: seq<seq<seq<char>>>)
    requires |segs| >= 1 && forall k :: 0 <= k < |segs| ==> PipeFree(segs[k])
    ensures Segments(Join(segs)) == segs
    decreases |segs|
  {
    var ws := Join(segs);
    if |segs| == 1 {
      assert FirstPipe(ws) == |ws|;
    } else {
      var head, later := segs[0], segs[1..];
      var tail := Join(later);
      assert ws == head + ["|"] + tail;
      FirstPipeJoin(head, tail);
      AroundSeparator(head, "|", tail);
      assert forall k :: 0 <= k < |later| ==> later[k] == segs[k + 1];
      SegmentsJoin(later);
      assert segs == [head] + later;
    }
  }

  /** The parts on either side of the element after a. */
  lemma AroundSeparator<T>(a: seq<T>, x: T, b: seq<T>)
    ensures (a + [x] + b)[..|a|] == a && (a + [x] + b)[|a| + 1..] == b
  {
  }

  /** What one turn of the loop does after reading a line. */
  datatype Action =
    | Skip
    | EventNotFound
    | Exit
    | ShowHistory(entries: seq<(int, Entry)>, timed: bool)
    | ChangeDir(path: Option<seq<char>>)
    | RunPipeline(stages: seq<seq<seq<char>>>, background: bool)

  /** The next history, the action, and the command stored in the history, if any. */
  datatype Turn = Turn(history: History, action: Action, stored: Option<Entry>)

  predicate Valid(h: History) {
    |h.slots| == MAX_HISTORY && h.count >= 1
  }

  /** The words of a line without a trailing "&", and whether there was one. */
  function Background(args: seq<seq<char>>): (r: (seq<seq<char>>, bool))
    ensures r.1 <==> args != [] && args[|args| - 1] == "&"
    ensures args == r.0 + (if r.1 then ["&"] else [])
  {
    if args != [] && args[|args| - 1] == "&" then
      assert args == args[..|args| - 1] + ["&"];
      (args[..|args| - 1], true)
    else (args, false)
  }

  /**
   Lines 149-173: the words the tokenize loop keeps, at most MAX_ARGS - 1 of
   them, less a trailing "&", and whether there was one.
   */
  function LineWords(text: seq<char>): (seq<seq<char>>, bool) {
    Background(Take(Words(text, DELIMS), MAX_ARGS - 1))
  }

  /**
   Lines 149-219 once the line is expanded: the words decide the action, and
   text is stored unless it has no words, is a lone "&", or runs `history`.
   */
  function Decide(h: History, text: seq<char>): (r: Turn)
    requires Valid(h) && '\0' !in text
    ensures Valid(r.history)
    ensures r.history == if r.stored.Some? then Store(h, text) else h
    ensures r.stored.Some? ==> r.stored.value == text
    ensures r.stored.Some? <==> r.action.Exit? || r.action.ChangeDir? || r.action.RunPipeline?
    ensures r.action.Skip? <==> Words(text, DELIMS) == [] || Words(text, DELIMS) == ["&"]
    ensures !r.action.EventNotFound?
    ensures r.action.ShowHistory? ==> r.action.entries == Listing(h)
    ensures r.action.ShowHistory? || r.stored.Some? ==> Words(text, DELIMS) != []
    ensures r.action.ShowHistory? <==> !r.action.Skip? && Words(text, DELIMS)[0] == "history"
    ensures r.action.RunPipeline? ==> (|r.action.stages| >= 1 &&
              Join(r.action.stages) + (if r.action.background then ["&"] else []) == Take(Words(text, DELIMS), MAX_ARGS - 1))
    ensures var ws := LineWords(text).0; r.action.Exit? <==> ws != [] && ws[0] == "exit"
    ensures var ws := LineWords(text).0; r.action.ChangeDir? <==> ws != [] && ws[0] == "cd"
    ensures var ws := LineWords(text).0;
            r.action.ChangeDir? ==> r.action.path == if |ws| < 2 then None else Some(ws[1])
    ensures var ws := LineWords(text).0;
            r.action.ShowHistory? ==> r.action.timed == (|ws| > 1 && ws[1] == "-t")
    ensures var ws := LineWords(text).0;
            r.action.RunPipeline? <==> ws != [] && ws[0] != "history" && ws[0] != "exit" && ws[0] != "cd"
    ensures r.action.RunPipeline? ==> r.action.stages == Segments(LineWords(text).0) && r.action.background == LineWords(text).1
  {
    TokenizeWords(text);
    var (words, bg) := Background(Tokenize(text));
    if words == [] then Turn(h, Skip, None)
    else if words[0] == "history" then
      Turn(h, ShowHistory(Listing(h), |words| > 1 && words[1] == "-t"), None)
    else
      var h' := Store(h, text);
      if words[0] == "exit" then Turn(h', Exit, Some(text))
      else if words[0] == "cd" then Turn(h', ChangeDir(if |words| < 2 then None else Some(words[1])), Some(text))
      else Turn(h', RunPipeline(Segments(words), bg), Some(text))
  }

  /** Lines 117-219 for one line gets returned. */
  function Step(h: History, raw: seq<char>): (r: Turn)
    requires Valid(h)
    ensures Valid(r.history)
    ensures r.action.EventNotFound? <==> Expand(h, Prepare(raw)).None?
    ensures r.action.EventNotFound? ==> r == Turn(h, EventNotFound, None)
  {
    var target := Expand(h, Prepare(raw));
    if target.None? then Turn(h, EventNotFound, None) else Decide(h, CString(target.value))
  }

  /** The log grows by the stored command, if any. */
  function Logged(s: Option<Entry>): (r: seq<Entry>)
    ensures s.Some? ==> r == [s.value]
    ensures s.None? ==> r == []
  {
    if s.Some? then [s.value] else []
  }

  /**
   Against the log, a turn recalls the line's `!` reference and decides on
   the recalled command read as a C string.
   */
  lemma StepRecalls(h: History, log: seq<Entry>, raw: seq<char>)
    requires Agrees(h, log)
    ensures var c := Recall(log, Prepare(raw));
            Step(h, raw) == if c.None? then Turn(h, EventNotFound, None) else Decide(h, CString(c.value))
  {
    ExpandAgrees(h, log, Prepare(raw));
  }

  /** A turn keeps the ring in agreement with the log extended by what it stored. */
  lemma StepAgrees(h: History, log: seq<Entry>, raw: seq<char>)
    requires Agrees(h, log)
    ensures Agrees(Step(h, raw).history, log + Logged(Step(h, raw).stored))
  {
    var r := Step(h, raw);
    if r.stored.Some? {
      StoreAgrees(h, log, r.stored.value);
    } else {
      assert log + [] == log;
    }
  }

  /** A line that is blank or only a comment does nothing and is not stored. */
  lemma BlankSkipped(h: History, raw: seq<char>)
    requires Valid(h) && Words(Prepare(raw), DELIMS) == []
    ensures Step(h, raw) == Turn(h, Skip, None)
  {
    var line := Prepare(raw);
    if line != [] && line[0] !in DELIMS {
      NotAllDelims(line, DELIMS);
    }
    CStringNulFree(line);
  }

  /** A string whose first character is not a delimiter has a word. */
  lemma NotAllDelims(s: seq<char>, delims: seq<char>)
    requires s != [] && s[0] !in delims
    ensures Words(s, delims) != []
  {
    var k := Strcspn(s, delims);
    var i := 0;
    while i < |s| && s[i] !in delims
      invariant 1 <= i + 1 <= |s| + 1 && forall j :: 0 <= j < i ==> s[j] !in delims
      decreases |s| - i
    {
      i := i + 1;
    }
    var w := s[..i];
    assert IsWord(w, delims);
    assert AllIn([], delims);
    WordsStep([], w, s[i..], delims);
    assert [] + w + s[i..] == s;
  }

  /** One more line's turn after the history h, the actions acts and the log: what each becomes. */
  function Extend(h: History, acts: seq<Action>, log: seq<Entry>, line: seq<char>): (r: (History, seq<Action>, seq<Entry>))
    requires Valid(h) && Agrees(h, log)
    ensures Valid(r.0) && Agrees(r.0, r.2) && |r.1| == |acts| + 1
  {
    var t := Step(h, line);
    StepAgrees(h, log, line);
    (t.history, acts + [t.action], log + Logged(t.stored))
  }

  /**
   Every one of lines in turn from the shell's start, each on the history
   the lines before it left: the history at the end, the action of each
   line, and the commands stored, oldest first.
   */
  function Run(lines: seq<seq<char>>): (r: (History, seq<Action>, seq<Entry>))
    ensures Valid(r.0) && Agrees(r.0, r.2) && |r.1| == |lines|
    decreases |lines|
  {
    if lines == [] then
      InitialAgrees();
      (Initial(), [], [])
    else
      var p := Run(lines[..|lines| - 1]);
      Extend(p.0, p.1, p.2, lines[|lines| - 1])
  }

  /** The prefix of a prefix, and an element of it. */
  lemma PrefixOfPrefix<T>(s: seq<T>, k: nat)
    requires k < |s|
    ensures s[..|s| - 1][..k] == s[..k]
    ensures k < |s| - 1 ==> s[..|s| - 1][k] == s[k]
  {
  }

  /** Line k's action is its turn on the history the k lines before it left. */
  lemma {:induction false} RunAction(lines: seq<seq<char>>, k: nat)
    requires k < |lines|
    ensures Run(lines).1[k] == Step(Run(lines[..k]).0, lines[k]).action
    decreases |lines|
  {
    PrefixOfPrefix(lines, k);
    if k < |lines| - 1 {
      RunAction(lines[..|lines| - 1], k);
    }
  }

  /** One more line: its turn runs on the history the earlier lines left. */
  lemma RunSnoc(lines: seq<seq<char>>, i: nat, h: History, acts: seq<Action>, log: seq<Entry>)
    requires i < |lines| && (h, acts, log) == Run(lines[..i])
    ensures Valid(h) && Agrees(h, log)
    ensures Run(lines[..i + 1]) == Extend(h, acts, log, lines[i])
  {
    var s := lines[..i + 1];
    PrefixOfPrefix(lines[..i + 1], i);
    assert s != [] && s[..|s| - 1] == lines[..i] && s[|s| - 1] == lines[i];
  }

  /**
   The main loop over the lines gets returns, from the shell's start, until
   the lines run out or a line runs `exit`. Gives the history, the action of
   every line read, and the commands stored, oldest first: what Run gives
   for the lines read.
   */
  method Shell(lines: seq<seq<char>>) returns (h: History, actions: seq<Action>, stored: seq<Entry>)
    ensures Agrees(h, stored)
    ensures |actions| <= |lines|
    ensures forall k :: 0 <= k < |actions| - 1 ==> !actions[k].Exit?
    ensures |actions| < |lines| ==> actions != [] && actions[|actions| - 1].Exit?
    ensures (h, actions, stored) == Run(lines[..|actions|])
  {
    h := Initial();
    InitialAgrees();
    actions := [];
    stored := [];
    var i := 0;
    while i < |lines|
      invariant i <= |lines| && |actions| == i
      invariant forall k :: 0 <= k < |actions| ==> !actions[k].Exit?
      invariant (h, actions, stored) == Run(lines[..i])
    {
      RunSnoc(lines, i, h, actions, stored);
      var t := Step(h, lines[i]);
      h := t.history;
      stored := stored + Logged(t.stored);
      actions := actions + [t.action];
      if t.action.Exit? {
        return;
      }
      i := i + 1;
    }
  }
}
