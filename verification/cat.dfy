/**
 The cat utility (user/cat.c): option parsing, and the filter that copies
 its input, numbering lines (-n, -b), marking line ends (-E) and squeezing
 blank lines (-s). The filter is a state machine over the characters of one
 input; its state (next line number, line start, blank run) starts afresh
 for each input. The reads and writes are sequences: one input is the whole
 of what read returns for a file descriptor, in order.
 */
module Cat {
  import opened Outcome
  import Decimal

  /** nflag, bflag, Eflag and sflag. */
  datatype Flags = Flags(number: bool, nonblank: bool, ends: bool, squeeze: bool)

  const NoFlags := Flags(false, false, false, false)

  /** line, start and blank_run of cat(fd). */
  datatype State = State(line: nat, start: bool, blankRun: bool)

  const Fresh := State(1, true, false)

  predicate IsPad(c: char) {
    c == ' ' || Decimal.IsDigit(c)
  }

  /** Lines 26-28: the number right-aligned in three columns, then two spaces. */
  function Pad(n: nat): (r: seq<char>)
    ensures |r| == Max(3, |Decimal.Itoa(n)|) + 2
    ensures forall i :: 0 <= i < |r| ==> IsPad(r[i])
    ensures r[|r| - 2..] == "  "
    ensures forall i :: 0 <= i < |r| - 2 - |Decimal.Itoa(n)| ==> r[i] == ' '
    ensures Decimal.Atoi(r[|r| - 2 - |Decimal.Itoa(n)|..]) == n
  {
    var d := Decimal.Itoa(n);
    var sp := if n < 10 then "  " else if n < 100 then " " else "";
    Decimal.AtoiItoa(n, "  ");
    assert (sp + d + "  ")[|sp|..] == d + "  ";
    assert (sp + d + "  ")[..|sp|] == sp;
    sp + d + "  "
  }

  /** Numbers up to 999 take exactly five columns. */
  lemma PadWidth(n: nat)
    requires n < 1000
    ensures |Pad(n)| == 5
  {
  }

  /** Lines 22-30: whether a character at a line start gets a number; -b decides alone when set. */
  predicate Numbers(f: Flags, start: bool, c: char) {
    start && (if f.nonblank then c != '\n' else f.number)
  }

  /**
   Lines 19-49 for one character c, as written: the number goes out at a
   line start, then -s drops a '\n' when the previous character processed
   was a '\n' that went out; a dropped '\n' leaves start cleared.
   */
  function Step(f: Flags, st: State, c: char): (r: (seq<char>, State))
    ensures r.1.line == st.line || (st.start && r.1.line == st.line + 1)
    ensures !st.start ==> r.0 == (if f.ends && c == '\n' then "$" else "") + [c] || r.0 == []
  {
    var num := Numbers(f, st.start, c);
    var pre := if num then Pad(st.line) else [];
    var line := if num then st.line + 1 else st.line;
    if f.squeeze && c == '\n' && st.blankRun then (pre, State(line, false, true))
    else (pre + (if f.ends && c == '\n' then "$" else "") + [c], State(line, c == '\n', f.squeeze && c == '\n'))
  }

  /**
   The corrected step: a blank line (a '\n' at a line start) that follows a
   blank line is dropped whole, before any number is printed, and only blank
   lines count towards the run.
   */
  function StepFixed(f: Flags, st: State, c: char): (r: (seq<char>, State))
    ensures f.squeeze && c == '\n' && st.start && st.blankRun ==> r == ([], st)
  {
    if f.squeeze && c == '\n' && st.start && st.blankRun then ([], st)
    else
      var num := Numbers(f, st.start, c);
      var pre := if num then Pad(st.line) else [];
      var line := if num then st.line + 1 else st.line;
      (pre + (if f.ends && c == '\n' then "$" else "") + [c], State(line, c == '\n', f.squeeze && c == '\n' && st.start))
  }

  /** Without -s the two steps agree. */
  lemma StepsAgree(f: Flags, st: State, c: char)
    requires !f.squeeze
    ensures Step(f, st, c) == StepFixed(f, st, c)
  {
  }

  function Turn(f: Flags, st: State, c: char, fixed: bool): (seq<char>, State) {
    if fixed then StepFixed(f, st, c) else Step(f, st, c)
  }

  /** The output for input from state st: each character's step in order. */
  function Filter(f: Flags, st: State, input: seq<char>, fixed: bool): (out: seq<char>)
    decreases |input|
  {
    if input == [] then []
    else
      var t := Turn(f, st, input[0], fixed);
      t.0 + Filter(f, t.1, input[1..], fixed)
  }

  /** With no flags, cat copies its input unchanged. */
  lemma {:induction false} NoFlagsCopies(st: State, input: seq<char>, fixed: bool)
    ensures Filter(NoFlags, st, input, fixed) == input
    decreases |input|
  {
    if input != [] {
      var (o, st') := Turn(NoFlags, st, input[0], fixed);
      NoFlagsCopies(st', input[1..], fixed);
      assert input == [input[0]] + input[1..];
    }
  }

  /** The reference for -E: every '\n' becomes "$\n". */
  function ShowEnds(s: seq<char>): (r: seq<char>)
    ensures |r| == |s| + multiset(s)['\n']
    decreases |s|
  {
    if s == [] then []
    else
      assert s == [s[0]] + s[1..];
      (if s[0] == '\n' then "$\n" else [s[0]]) + ShowEnds(s[1..])
  }

  const EndsOnly := Flags(false, false, true, false)

  /** With -E alone, cat writes its input with "$" before every '\n'. */
  lemma {:induction false} EndsOnlyShowsEnds(st: State, input: seq<char>, fixed: bool)
    ensures Filter(EndsOnly, st, input, fixed) == ShowEnds(input)
    decreases |input|
  {
    if input != [] {
      var (o, st') := Turn(EndsOnly, st, input[0], fixed);
      EndsOnlyShowsEnds(st', input[1..], fixed);
    }
  }

  /** Every '\n' of s comes right after a '$'. */
  predicate Marked(s: seq<char>) {
    forall i :: 0 <= i < |s| && s[i] == '\n' ==> 0 < i && s[i - 1] == '$'
  }

  lemma MarkedAppend(a: seq<char>, b: seq<char>)
    requires Marked(a) && Marked(b)
    ensures Marked(a + b)
  {
    forall i | 0 <= i < |a + b| && (a + b)[i] == '\n'
      ensures 0 < i && (a + b)[i - 1] == '$'
    {
      if i >= |a| {
        assert b[i - |a|] == '\n';
        assert i - |a| > 0 && b[i - |a| - 1] == '$';
      }
    }
  }

  /** The output of one step with -E set is marked. */
  lemma TurnMarked(f: Flags, st: State, c: char, fixed: bool)
    requires f.ends
    ensures Marked(Turn(f, st, c, fixed).0)
  {
    var o := Turn(f, st, c, fixed).0;
    forall i | 0 <= i < |o| && o[i] == '\n'
      ensures 0 < i && o[i - 1] == '$'
    {
      assert i == |o| - 1;
    }
  }

  /** With -E, whatever the other flags, every '\n' written comes right after a '$'. */
  lemma {:induction false} EndsMarked(f: Flags, st: State, input: seq<char>, fixed: bool)
    requires f.ends
    ensures Marked(Filter(f, st, input, fixed))
    decreases |input|
  {
    if input != [] {
      var (o, st') := Turn(f, st, input[0], fixed);
      TurnMarked(f, st, input[0], fixed);
      EndsMarked(f, st', input[1..], fixed);
      MarkedAppend(o, Filter(f, st', input[1..], fixed));
    }
  }

  /** No two adjacent '\n' in s. */
  predicate NoDouble(s: seq<char>) {
    forall i :: 0 < i < |s| ==> !(s[i - 1] == '\n' && s[i] == '\n')
  }

  lemma NoDoubleAppend(a: seq<char>, b: seq<char>)
    requires NoDouble(a) && NoDouble(b)
    requires a != [] && b != [] ==> !(a[|a| - 1] == '\n' && b[0] == '\n')
    ensures NoDouble(a + b)
  {
    forall i | 0 < i < |a + b|
      ensures !((a + b)[i - 1] == '\n' && (a + b)[i] == '\n')
    {
      if i > |a| {
        assert (a + b)[i - 1] == b[i - 1 - |a|] && (a + b)[i] == b[i - |a|];
      } else if i < |a| {
        assert (a + b)[i - 1] == a[i - 1] && (a + b)[i] == a[i];
      }
    }
  }

  /** One step as written with -s: no double newline inside, and only a '\n' it writes ends it. */
  lemma StepSqueezed(f: Flags, st: State, c: char)
    requires f.squeeze
    ensures NoDouble(Step(f, st, c).0)
    ensures Step(f, st, c).0 != [] && Step(f, st, c).0[|Step(f, st, c).0| - 1] == '\n' ==> Step(f, st, c).1.blankRun
    ensures st.blankRun && Step(f, st, c).0 != [] ==> Step(f, st, c).0[0] != '\n'
    ensures st.blankRun ==> Step(f, st, c).1.blankRun || c != '\n'
  {
    var o := Step(f, st, c).0;
    var pre: seq<char> := if Numbers(f, st.start, c) then Pad(st.line) else [];
    assert forall i :: 0 <= i < |pre| ==> pre[i] != '\n';
    var tail: seq<char> := if c == '\n' && st.blankRun then [] else (if f.ends && c == '\n' then "$" else "") + [c];
    assert o == pre + tail;
    assert forall i :: 0 <= i < |tail| - 1 ==> tail[i] != '\n';
    forall i | 0 < i < |o|
      ensures !(o[i - 1] == '\n' && o[i] == '\n')
    {
      if i - 1 < |pre| {
        assert o[i - 1] == pre[i - 1];
      } else {
        assert o[i - 1] == tail[i - 1 - |pre|];
      }
    }
  }

  /**
   With -s, whatever the other flags, the output as written never has two
   adjacent '\n'; from a state after a written '\n' it does not start with one.
   */
  lemma {:induction false} SqueezeNoDouble(f: Flags, st: State, input: seq<char>)
    requires f.squeeze
    ensures NoDouble(Filter(f, st, input, false))
    ensures st.blankRun && Filter(f, st, input, false) != [] ==> Filter(f, st, input, false)[0] != '\n'
    decreases |input|
  {
    if input != [] {
      var (o, st') := Step(f, st, input[0]);
      var rest := Filter(f, st', input[1..], false);
      StepSqueezed(f, st, input[0]);
      SqueezeNoDouble(f, st', input[1..]);
      NoDoubleAppend(o, rest);
      if st.blankRun && o == [] && rest != [] {
        assert st'.blankRun;
      }
    }
  }

  const SqueezeOnly := Flags(false, false, false, true)

  /** As written, -s removes the only blank line between two lines. */
  lemma SqueezeDropsBlankLine(a: seq<char>, b: seq<char>)
    requires a != [] && '\n' !in a && '\n' !in b
    ensures Filter(SqueezeOnly, Fresh, a + "\n\n" + b, false) == a + "\n" + b
  {
    SqueezeCopies(Fresh, a, "\n\n" + b, false);
    assert a + "\n\n" + b == a + ("\n\n" + b);
    var st := State(1, false, false);
    assert Filter(SqueezeOnly, st, "\n\n" + b, false) == "\n" + Filter(SqueezeOnly, State(1, true, true), "\n" + b, false);
    assert ("\n" + b)[1..] == b;
    assert Filter(SqueezeOnly, State(1, true, true), "\n" + b, false) == Filter(SqueezeOnly, State(1, false, true), b, false);
    if b != [] {
      SqueezeCopies(State(1, false, true), b, [], false);
      assert b + [] == b;
    }
    assert a + ("\n" + b) == a + "\n" + b;
  }

  /**
   With -s alone, text without '\n' is copied, and leaves the state at the
   same line, not at a line start and not in a blank run.
   */
  lemma {:induction false} SqueezeCopies(st: State, a: seq<char>, rest: seq<char>, fixed: bool)
    requires a != [] && '\n' !in a
    ensures Filter(SqueezeOnly, st, a + rest, fixed) == a + Filter(SqueezeOnly, State(st.line, false, false), rest, fixed)
    decreases |a|
  {
    var s := a + rest;
    assert s[0] == a[0] && s[1..] == a[1..] + rest;
    var st' := State(st.line, false, false);
    assert a[0] != '\n' && "" + [a[0]] == [a[0]];
    assert Turn(SqueezeOnly, st, a[0], fixed) == ([a[0]], st');
    assert Filter(SqueezeOnly, st, s, fixed) == [a[0]] + Filter(SqueezeOnly, st', a[1..] + rest, fixed);
    if |a| == 1 {
      assert a[1..] + rest == rest && a == [a[0]];
    } else {
      SqueezeCopies(st', a[1..], rest, fixed);
      assert a == [a[0]] + a[1..];
    }
  }

  /** Corrected, -s keeps the only blank line between two lines. */
  lemma SqueezeFixedKeepsBlankLine(a: seq<char>, b: seq<char>)
    requires a != [] && '\n' !in a && '\n' !in b
    ensures Filter(SqueezeOnly, Fresh, a + "\n\n" + b, true) == a + "\n\n" + b
  {
    SqueezeCopies(Fresh, a, "\n\n" + b, true);
    assert a + "\n\n" + b == a + ("\n\n" + b);
    var st := State(1, false, false);
    assert Filter(SqueezeOnly, st, "\n\n" + b, true) == "\n" + Filter(SqueezeOnly, State(1, true, false), "\n" + b, true);
    assert ("\n" + b)[1..] == b;
    assert Filter(SqueezeOnly, State(1, true, false), "\n" + b, true) == "\n" + Filter(SqueezeOnly, State(1, true, true), b, true);
    if b != [] {
      SqueezeCopies(State(1, true, true), b, [], true);
      assert b + [] == b;
    }
    assert a + ("\n" + ("\n" + b)) == a + "\n\n" + b;
  }

  /** The characters of s other than '\n', in order. */
  function Text(s: seq<char>): (r: seq<char>)
    ensures '\n' !in r
    decreases |s|
  {
    if s == [] then [] else (if s[0] == '\n' then [] else [s[0]]) + Text(s[1..])
  }

  /**
   The reference for -s as written: a '\n' that comes straight after a '\n'
   (or first, when afterNewline) is dropped, and every other character is
   kept. So no text is lost, and no two '\n' end up adjacent.
   */
  function Squeezed(s: seq<char>, afterNewline: bool): (r: seq<char>)
    ensures Text(r) == Text(s) && NoDouble(r)
    ensures afterNewline && r != [] ==> r[0] != '\n'
    decreases |s|
  {
    if s == [] then []
    else
      assert s == [s[0]] + s[1..];
      var rest := Squeezed(s[1..], s[0] == '\n');
      if s[0] == '\n' && afterNewline then rest
      else
        assert Text([s[0]] + rest) == (if s[0] == '\n' then [] else [s[0]]) + Text(rest) by {
          assert ([s[0]] + rest)[1..] == rest;
        }
        NoDoubleAppend([s[0]], rest);
        [s[0]] + rest
  }

  /**
   As written, -s alone drops exactly the '\n' that directly follow another
   '\n' (counting a dropped one), and keeps everything else.
   */
  lemma {:induction false} SqueezeExact(st: State, s: seq<char>)
    ensures Filter(SqueezeOnly, st, s, false) == Squeezed(s, st.blankRun)
    decreases |s|
  {
    if s != [] {
      var c := s[0];
      var next := State(st.line, if c == '\n' && st.blankRun then false else c == '\n', c == '\n');
      assert Step(SqueezeOnly, st, c).1 == next;
      assert Step(SqueezeOnly, st, c).0 == if c == '\n' && st.blankRun then [] else [c];
      SqueezeExact(next, s[1..]);
    }
  }

  /**
   The reference for the corrected -s: a '\n' at a line start (a blank
   line) is dropped when the line before it was blank too, and every other
   character is kept. start and blank describe the position before s.
   */
  function SqueezedFixed(s: seq<char>, start: bool, blank: bool): (r: seq<char>)
    ensures Text(r) == Text(s)
    decreases |s|
  {
    if s == [] then []
    else
      assert s == [s[0]] + s[1..];
      if s[0] == '\n' && start && blank then SqueezedFixed(s[1..], start, blank)
      else
        var rest := SqueezedFixed(s[1..], s[0] == '\n', s[0] == '\n' && start);
        assert ([s[0]] + rest)[1..] == rest;
        [s[0]] + rest
  }

  /** Corrected, -s alone drops exactly the blank lines that follow a blank line, and keeps everything else. */
  lemma {:induction false} SqueezeFixedExact(st: State, s: seq<char>)
    ensures Filter(SqueezeOnly, st, s, true) == SqueezedFixed(s, st.start, st.blankRun)
    decreases |s|
  {
    if s != [] {
      var c := s[0];
      if c == '\n' && st.start && st.blankRun {
        assert StepFixed(SqueezeOnly, st, c) == ([], st);
        SqueezeFixedExact(st, s[1..]);
      } else {
        var next := State(st.line, c == '\n', c == '\n' && st.start);
        assert !Numbers(SqueezeOnly, st.start, c) && [] + "" + [c] == [c];
        assert StepFixed(SqueezeOnly, st, c) == ([c], next);
        SqueezeFixedExact(next, s[1..]);
      }
    }
  }

  /** No three adjacent '\n' in s, and no two at its start: no two blank lines in a row. */
  predicate NoBlankRun(s: seq<char>) {
    (|s| >= 2 ==> !(s[0] == '\n' && s[1] == '\n')) &&
    forall i :: 1 < i < |s| ==> !(s[i - 2] == '\n' && s[i - 1] == '\n' && s[i] == '\n')
  }

  /**
   What the corrected -s alone has written so far, as far as the next step
   is concerned: at a line start after a blank line, at a line start after a
   text line (or at the beginning), or inside a line.
   */
  predicate SqueezeState(st: State, written: seq<char>) {
    (st.start && st.blankRun ==> written != [] && written[|written| - 1] == '\n') &&
    (st.start && !st.blankRun ==> written == [] || (|written| >= 2 && written[|written| - 1] == '\n' && written[|written| - 2] != '\n')) &&
    (!st.start ==> written != [] && written[|written| - 1] != '\n')
  }

  /**
   Corrected, -s alone never writes two blank lines in a row: from any
   state consistent with what has been written, the whole stays free of them.
   */
  lemma {:induction false} SqueezeFixedNoBlankRun(st: State, written: seq<char>, input: seq<char>)
    requires SqueezeState(st, written) && NoBlankRun(written)
    ensures NoBlankRun(written + Filter(SqueezeOnly, st, input, true))
    decreases |input|
  {
    if input == [] {
      assert written + [] == written;
    } else {
      var c := input[0];
      var (o, st') := StepFixed(SqueezeOnly, st, c);
      var w' := written + o;
      assert o == [] || o == [c];
      SqueezeStep(st, written, c);
      SqueezeFixedNoBlankRun(st', w', input[1..]);
      assert written + (o + Filter(SqueezeOnly, st', input[1..], true)) == w' + Filter(SqueezeOnly, st', input[1..], true);
    }
  }

  /** One corrected step with -s alone keeps what is written free of blank runs, and the state in line with it. */
  lemma SqueezeStep(st: State, written: seq<char>, c: char)
    requires SqueezeState(st, written) && NoBlankRun(written)
    ensures SqueezeState(StepFixed(SqueezeOnly, st, c).1, written + StepFixed(SqueezeOnly, st, c).0)
    ensures NoBlankRun(written + StepFixed(SqueezeOnly, st, c).0)
  {
    var (o, st') := StepFixed(SqueezeOnly, st, c);
    if o != [] {
      assert o == [c] && st' == State(st.line, c == '\n', c == '\n' && st.start);
      AppendNoBlankRun(written, c, st.start && !st.blankRun);
    }
  }

  /** Appending c keeps s free of blank runs unless c is a third '\n', or a second one at the start. */
  lemma AppendNoBlankRun(s: seq<char>, c: char, afterText: bool)
    requires NoBlankRun(s)
    requires c == '\n' && s != [] ==> s[|s| - 1] != '\n' || afterText
    requires afterText ==> s == [] || (|s| >= 2 && s[|s| - 1] == '\n' && s[|s| - 2] != '\n')
    ensures NoBlankRun(s + [c])
    ensures (s + [c])[|s|] == c
  {
    var w := s + [c];
    assert forall i :: 0 <= i < |s| ==> w[i] == s[i];
    if |s| >= 2 {
      assert w[|s| - 2] == s[|s| - 2] && w[|s| - 1] == s[|s| - 1];
    }
  }

  /** The length of the first line of s, its '\n' included when it has one. */
  function LineEnd(s: seq<char>): (e: nat)
    requires s != []
    ensures 0 < e <= |s|
    ensures forall i :: 0 <= i < e - 1 ==> s[i] != '\n'
    ensures s[e - 1] == '\n' || e == |s|
  {
    if s[0] == '\n' || |s| == 1 then 1
    else
      var e := LineEnd(s[1..]);
      assert forall i :: 1 <= i < e ==> s[i] == s[1..][i - 1];
      1 + e
  }

  /** Flags that number lines at most: neither -E nor -s. */
  predicate Plain(f: Flags) {
    !f.ends && !f.squeeze
  }

  /** One step with plain flags: the number when the line gets one, then the character. */
  lemma PlainTurn(f: Flags, st: State, c: char, fixed: bool)
    requires Plain(f)
    ensures Turn(f, st, c, fixed) ==
            ((if Numbers(f, st.start, c) then Pad(st.line) else []) + [c],
             State(if Numbers(f, st.start, c) then st.line + 1 else st.line, c == '\n', false))
  {
    var pre: seq<char> := if Numbers(f, st.start, c) then Pad(st.line) else [];
    assert pre + "" + [c] == pre + [c];
    StepsAgree(f, st, c);
  }

  /** The filter with plain flags on a nonempty input: the first step, then the rest. */
  lemma PlainCons(f: Flags, st: State, s: seq<char>, fixed: bool)
    requires Plain(f) && s != []
    ensures Filter(f, st, s, fixed) ==
            (if Numbers(f, st.start, s[0]) then Pad(st.line) else []) + [s[0]] +
            Filter(f, State(if Numbers(f, st.start, s[0]) then st.line + 1 else st.line, s[0] == '\n', false), s[1..], fixed)
  {
    PlainTurn(f, st, s[0], fixed);
  }

  /** A line of s that ends at its first character. */
  lemma ShortLine(s: seq<char>)
    requires s != [] && (s[0] == '\n' || |s| == 1)
    ensures LineEnd(s) == 1 && s[..1] == [s[0]] && s[1..] == s[LineEnd(s)..]
  {
  }

  /** A line of s that goes on past its first character: the rest of it is the first line of s[1..]. */
  lemma LongLine(s: seq<char>)
    requires |s| > 1 && s[0] != '\n'
    ensures s[1..][LineEnd(s[1..])..] == s[LineEnd(s)..]
    ensures s[..LineEnd(s)] == [s[0]] + s[1..][..LineEnd(s[1..])]
  {
  }

  /** Regrouping: a prefix, a line and what follows it. */
  lemma Regroup(p: seq<char>, c: char, mid: seq<char>, tail: seq<char>, line: seq<char>)
    requires line == [c] + mid
    ensures p + [c] + (mid + tail) == p + line + tail
  {
  }

  /** Inside a line, plain flags copy a character and number nothing. */
  lemma MidCons(f: Flags, k: nat, b: bool, s: seq<char>, fixed: bool)
    requires Plain(f) && s != []
    ensures Filter(f, State(k, false, b), s, fixed) == [s[0]] + Filter(f, State(k, s[0] == '\n', false), s[1..], fixed)
  {
    PlainCons(f, State(k, false, b), s, fixed);
  }

  /** A line that ends at the first character, inside a line. */
  lemma MidLineShort(f: Flags, k: nat, b: bool, s: seq<char>, fixed: bool)
    requires Plain(f) && s != [] && (s[0] == '\n' || |s| == 1)
    ensures Filter(f, State(k, false, b), s, fixed) ==
            s[..LineEnd(s)] + Filter(f, State(k, true, false), s[LineEnd(s)..], fixed)
  {
    MidCons(f, k, b, s, fixed);
    ShortLine(s);
  }

  /** Inside a line, plain flags copy up to and including the line's '\n', and are then at a line start. */
  lemma {:induction false} PlainMidLine(f: Flags, k: nat, b: bool, s: seq<char>, fixed: bool)
    requires Plain(f) && s != []
    ensures Filter(f, State(k, false, b), s, fixed) ==
            s[..LineEnd(s)] + Filter(f, State(k, true, false), s[LineEnd(s)..], fixed)
    decreases |s|
  {
    if s[0] == '\n' || |s| == 1 {
      MidLineShort(f, k, b, s, fixed);
    } else {
      var t := s[1..];
      var rest := Filter(f, State(k, true, false), s[LineEnd(s)..], fixed);
      MidCons(f, k, b, s, fixed);
      assert Filter(f, State(k, false, b), s, fixed) == [s[0]] + Filter(f, State(k, false, false), t, fixed);
      PlainMidLine(f, k, false, t, fixed);
      LongLine(s);
      assert Filter(f, State(k, false, false), t, fixed) == t[..LineEnd(t)] + rest;
      Regroup([], s[0], t[..LineEnd(t)], rest, s[..LineEnd(s)]);
    }
  }

  /** The flags of `-n` alone. */
  const NumberOnly := Flags(true, false, false, false)

  /** The reference for -n: each line of s, numbered from k. */
  function NumberFrom(k: nat, s: seq<char>): (r: seq<char>)
    decreases |s|
  {
    if s == [] then [] else Pad(k) + s[..LineEnd(s)] + NumberFrom(k + 1, s[LineEnd(s)..])
  }

  /** With -n alone, from line k at a line start, every line gets the next number, k, k + 1, ... */
  lemma {:induction false} NumberLines(k: nat, b: bool, s: seq<char>, fixed: bool)
    ensures Filter(NumberOnly, State(k, true, b), s, fixed) == NumberFrom(k, s)
    decreases |s|
  {
    if s != [] {
      PlainCons(NumberOnly, State(k, true, b), s, fixed);
      if s[0] == '\n' || |s| == 1 {
        ShortLine(s);
        NumberLines(k + 1, false, s[1..], fixed);
      } else {
        PlainMidLine(NumberOnly, k + 1, false, s[1..], fixed);
        LongLine(s);
        NumberLines(k + 1, false, s[LineEnd(s)..], fixed);
        Regroup(Pad(k), s[0], s[1..][..LineEnd(s[1..])], NumberFrom(k + 1, s[LineEnd(s)..]), s[..LineEnd(s)]);
      }
    }
  }

  /** The flags of `-b` alone. */
  const NonblankOnly := Flags(false, true, false, false)

  /** The reference for -b: each line of s that is not empty, numbered from k; empty lines as they are. */
  function NumberNonblankFrom(k: nat, s: seq<char>): (r: seq<char>)
    decreases |s|
  {
    if s == [] then []
    else if s[0] == '\n' then "\n" + NumberNonblankFrom(k, s[1..])
    else Pad(k) + s[..LineEnd(s)] + NumberNonblankFrom(k + 1, s[LineEnd(s)..])
  }

  /** With -b alone, from line k at a line start, the lines that are not empty get k, k + 1, ... */
  lemma {:induction false} NumberNonblankLines(k: nat, b: bool, s: seq<char>, fixed: bool)
    ensures Filter(NonblankOnly, State(k, true, b), s, fixed) == NumberNonblankFrom(k, s)
    decreases |s|
  {
    if s != [] {
      PlainCons(NonblankOnly, State(k, true, b), s, fixed);
      if s[0] == '\n' {
        NumberNonblankLines(k, false, s[1..], fixed);
      } else if |s| == 1 {
        ShortLine(s);
      } else {
        PlainMidLine(NonblankOnly, k + 1, false, s[1..], fixed);
        LongLine(s);
        NumberNonblankLines(k + 1, false, s[LineEnd(s)..], fixed);
        Regroup(Pad(k), s[0], s[1..][..LineEnd(s[1..])], NumberNonblankFrom(k + 1, s[LineEnd(s)..]), s[..LineEnd(s)]);
      }
    }
  }

  /** -b overrides -n: with -b set, -n changes nothing. */
  lemma {:induction false} NonblankOverrides(f: Flags, st: State, input: seq<char>, fixed: bool)
    requires f.nonblank
    ensures Filter(f.(number := true), st, input, fixed) == Filter(f.(number := false), st, input, fixed)
    decreases |input|
  {
    if input != [] {
      var (o, st') := Turn(f.(number := true), st, input[0], fixed);
      NonblankOverrides(f, st', input[1..], fixed);
    }
  }

  /** The letters -n, -b, -E and -s. */
  predicate IsOption(c: char) {
    c == 'n' || c == 'b' || c == 'E' || c == 's'
  }

  /** Lines 64-73: the letters of one option word after its '-'; an unknown letter is an error. */
  function Letters(f: Flags, w: seq<char>): (r: Result<Flags, char>)
    decreases |w|
    ensures r.Ok? <==> forall i :: 0 <= i < |w| ==> IsOption(w[i])
    ensures r.Ok? ==> r.value.number == (f.number || 'n' in w) && r.value.nonblank == (f.nonblank || 'b' in w)
    ensures r.Ok? ==> r.value.ends == (f.ends || 'E' in w) && r.value.squeeze == (f.squeeze || 's' in w)
    ensures r.Err? ==> r.error in w && !IsOption(r.error)
  {
    if w == [] then Ok(f)
    else if !IsOption(w[0]) then Err(w[0])
    else
      var f' := if w[0] == 'n' then f.(number := true)
                else if w[0] == 'b' then f.(nonblank := true)
                else if w[0] == 'E' then f.(ends := true)
                else f.(squeeze := true);
      var r := Letters(f', w[1..]);
      assert w == [w[0]] + w[1..];
      assert forall i :: 1 <= i < |w| ==> w[i] == w[1..][i - 1];
      r
  }

  /** An argument cat reads as options: one starting with '-'. */
  predicate IsOptionWord(w: seq<char>) {
    w != [] && w[0] == '-'
  }

  /**
   Lines 60-75: the leading option words from argv[i] on, and the index of
   the first argument that is not one.
   */
  function Options(args: seq<seq<char>>, i: nat, f: Flags): (r: Result<(Flags, nat), char>)
    requires i <= |args|
    ensures r.Ok? ==> i <= r.value.1 <= |args| && forall j :: i <= j < r.value.1 ==> IsOptionWord(args[j])
    ensures r.Ok? && r.value.1 < |args| ==> !IsOptionWord(args[r.value.1])
    ensures r.Err? ==> !IsOption(r.error)
    decreases |args| - i
  {
    if i == |args| || !IsOptionWord(args[i]) then Ok((f, i))
    else
      var g := Letters(f, args[i][1..]);
      if g.Err? then Err(g.error) else Options(args, i + 1, g.value)
  }

  /** Why cat stopped early. */
  datatype Failure = UnknownOption(letter: char) | CannotOpen(name: seq<char>)

  /**
   Lines 84-92: each file in turn, each from a fresh state; a missing file
   stops cat. With fixed false each file goes through the step as written,
   with fixed true through the corrected one.
   */
  function Files(f: Flags, names: seq<seq<char>>, fs: map<seq<char>, seq<char>>, fixed: bool): (r: (seq<char>, Option<Failure>))
    ensures r.1.Some? ==> r.1.value.CannotOpen? && r.1.value.name in names && r.1.value.name !in fs
    ensures r.1.None? ==> forall k :: 0 <= k < |names| ==> names[k] in fs
    decreases |names|
  {
    if names == [] then ([], None)
    else if names[0] !in fs then ([], Some(CannotOpen(names[0])))
    else
      var rest := Files(f, names[1..], fs, fixed);
      assert forall k :: 1 <= k < |names| ==> names[k] == names[1..][k - 1];
      (Filter(f, Fresh, fs[names[0]], fixed) + rest.0, rest.1)
  }

  /**
   Lines 59-94: cat with argv args (args[0] is the program name), standard
   input stdin and the files fs that open can find. Gives what is written
   and why it stopped early, if it did; fixed chooses the step as in Files.
   */
  function Main(args: seq<seq<char>>, stdin: seq<char>, fs: map<seq<char>, seq<char>>, fixed: bool): (r: (seq<char>, Option<Failure>))
    ensures r.1.Some? && r.1.value.UnknownOption? ==> r.0 == [] && !IsOption(r.1.value.letter)
    ensures r.1.Some? && r.1.value.CannotOpen? ==> |args| >= 2 && r.1.value.name in args[1..] && r.1.value.name !in fs
  {
    if |args| <= 1 then
      if |args| == 1 then (Filter(NoFlags, Fresh, stdin, fixed), None) else ([], None)
    else
      var o := Options(args, 1, NoFlags);
      if o.Err? then ([], Some(UnknownOption(o.error)))
      else if o.value.1 == |args| then (Filter(o.value.0, Fresh, stdin, fixed), None)
      else
        assert args[o.value.1..] == args[1..][o.value.1 - 1..];
        Files(o.value.0, args[o.value.1..], fs, fixed)
  }

  /**
   Files splits at any point before the first missing name: the output for
   xs + ys is the output for xs followed by the output for ys, each file
   from a fresh state, and the stop reason is that of ys.
   */
  lemma {:induction false} FilesAppend(f: Flags, xs: seq<seq<char>>, ys: seq<seq<char>>, fs: map<seq<char>, seq<char>>, fixed: bool)
    requires forall k :: 0 <= k < |xs| ==> xs[k] in fs
    ensures Files(f, xs + ys, fs, fixed) == (Files(f, xs, fs, fixed).0 + Files(f, ys, fs, fixed).0, Files(f, ys, fs, fixed).1)
    decreases |xs|
  {
    if xs == [] {
      assert xs + ys == ys;
      assert Files(f, xs, fs, fixed) == ([], None);
      assert [] + Files(f, ys, fs, fixed).0 == Files(f, ys, fs, fixed).0;
    } else {
      FilesCons(f, xs, ys, fs, fixed);
    }
  }

  /** The step of FilesAppend: the first name of xs is opened and written first. */
  lemma {:induction false} FilesCons(f: Flags, xs: seq<seq<char>>, ys: seq<seq<char>>, fs: map<seq<char>, seq<char>>, fixed: bool)
    requires xs != [] && forall k :: 0 <= k < |xs| ==> xs[k] in fs
    ensures Files(f, xs + ys, fs, fixed) == (Files(f, xs, fs, fixed).0 + Files(f, ys, fs, fixed).0, Files(f, ys, fs, fixed).1)
    decreases |xs|, 0
  {
    var tail := xs[1..];
    TailOpenable(xs, fs);
    FilesAppend(f, tail, ys, fs, fixed);
    ConsAppend(xs, ys);
    FilesUnfold(f, xs + ys, fs, fixed);
    FilesUnfold(f, xs, fs, fixed);
    PrependOutput(Filter(f, Fresh, fs[xs[0]], fixed), Files(f, xs + ys, fs, fixed), Files(f, tail + ys, fs, fixed),
                  Files(f, xs, fs, fixed), Files(f, tail, fs, fixed), Files(f, ys, fs, fixed));
  }

  /** Writing first ahead of two runs that append is writing it ahead of the first run. */
  lemma PrependOutput(first: seq<char>, whole: (seq<char>, Option<Failure>), rest: (seq<char>, Option<Failure>),
                      left: (seq<char>, Option<Failure>), leftRest: (seq<char>, Option<Failure>), right: (seq<char>, Option<Failure>))
    requires whole == (first + rest.0, rest.1) && rest == (leftRest.0 + right.0, right.1)
    requires left.0 == first + leftRest.0
    ensures whole == (left.0 + right.0, right.1)
  {
    assert first + (leftRest.0 + right.0) == (first + leftRest.0) + right.0;
  }

  /** Every name after the first can be opened when every name can. */
  lemma TailOpenable(xs: seq<seq<char>>, fs: map<seq<char>, seq<char>>)
    requires xs != [] && forall k :: 0 <= k < |xs| ==> xs[k] in fs
    ensures forall k :: 0 <= k < |xs[1..]| ==> xs[1..][k] in fs
  {
  }

  /** The head and tail of a concatenation whose left part is not empty. */
  lemma ConsAppend<T>(xs: seq<T>, ys: seq<T>)
    requires xs != []
    ensures (xs + ys)[0] == xs[0] && (xs + ys)[1..] == xs[1..] + ys
  {
  }

  /** One turn of Files on a name that can be opened. */
  lemma FilesUnfold(f: Flags, names: seq<seq<char>>, fs: map<seq<char>, seq<char>>, fixed: bool)
    requires names != [] && names[0] in fs
    ensures Files(f, names, fs, fixed) == (Filter(f, Fresh, fs[names[0]], fixed) + Files(f, names[1..], fs, fixed).0, Files(f, names[1..], fs, fixed).1)
  {
  }

  /**
   Lines 85-89: cat stops at the first name it cannot open, k, reporting
   that name, after writing every earlier file in full.
   */
  lemma FilesFirstMissing(f: Flags, names: seq<seq<char>>, fs: map<seq<char>, seq<char>>, fixed: bool, k: nat)
    requires k < |names| && names[k] !in fs
    requires forall j :: 0 <= j < k ==> names[j] in fs
    ensures Files(f, names, fs, fixed) == (Files(f, names[..k], fs, fixed).0, Some(CannotOpen(names[k])))
  {
    var before, after := names[..k], names[k..];
    assert names == before + after;
    assert forall j :: 0 <= j < |before| ==> before[j] == names[j];
    FilesAppend(f, before, after, fs, fixed);
    assert after[0] == names[k] && after != [];
    assert Files(f, after, fs, fixed) == ([], Some(CannotOpen(names[k])));
    assert Files(f, before, fs, fixed).0 + [] == Files(f, before, fs, fixed).0;
  }

  /**
   Lines 77-81: when every argument is an option word, cat filters standard
   input from a fresh state with the options read, and never fails.
   */
  lemma MainStdin(args: seq<seq<char>>, stdin: seq<char>, fs: map<seq<char>, seq<char>>, fixed: bool, f: Flags)
    requires |args| >= 1 && Options(args, 1, NoFlags) == Ok((f, |args|))
    ensures Main(args, stdin, fs, fixed) == (Filter(f, Fresh, stdin, fixed), None)
  {
  }

  /**
   Lines 83-92: when argument i is the first that is not an option word,
   arguments i onward are all file names, standard input is never read, and
   the result is that of Files on those names with the options read.
   */
  lemma MainFiles(args: seq<seq<char>>, stdin: seq<char>, other: seq<char>, fs: map<seq<char>, seq<char>>, fixed: bool, f: Flags, i: nat)
    requires |args| >= 1 && i < |args| && Options(args, 1, NoFlags) == Ok((f, i))
    ensures Main(args, stdin, fs, fixed) == Files(f, args[i..], fs, fixed)
    ensures Main(args, stdin, fs, fixed) == Main(args, other, fs, fixed)
  {
  }

  /** With no option and no file, cat copies standard input. */
  lemma CopiesStdin(stdin: seq<char>, fs: map<seq<char>, seq<char>>, fixed: bool)
    ensures Main(["cat"], stdin, fs, fixed) == (stdin, None)
  {
    NoFlagsCopies(Fresh, stdin, fixed);
  }

  /** Numbering restarts with each file: `cat -n x y` numbers both from 1. */
  lemma NumbersRestartPerFile(x: seq<char>, y: seq<char>, fs: map<seq<char>, seq<char>>, fixed: bool)
    requires x in fs && y in fs && !IsOptionWord(x)
    ensures Main(["cat", "-n", x, y], [], fs, fixed) == (NumberFrom(1, fs[x]) + NumberFrom(1, fs[y]), None)
  {
    var args: seq<seq<char>> := ["cat", "-n", x, y];
    assert args[1][1..] == "n";
    assert Letters(NoFlags, "n") == Ok(NumberOnly);
    assert Options(args, 2, NumberOnly) == Ok((NumberOnly, 2));
    assert Options(args, 1, NoFlags) == Ok((NumberOnly, 2));
    assert args[2..] == [x, y];
    assert Main(args, [], fs, fixed) == Files(NumberOnly, [x, y], fs, fixed);
    NumberLines(1, false, fs[x], fixed);
    NumberLines(1, false, fs[y], fixed);
    assert [x, y][1..] == [y];
    assert Files(NumberOnly, [y], fs, fixed) == (Filter(NumberOnly, Fresh, fs[y], fixed) + [], None);
    assert Files(NumberOnly, [x, y], fs, fixed) == (Filter(NumberOnly, Fresh, fs[x], fixed) + Files(NumberOnly, [y], fs, fixed).0, None);
    assert Fresh == State(1, true, false);
    assert Files(NumberOnly, [y], fs, fixed).0 == NumberFrom(1, fs[y]);
  }

  /** As written, `cat -s x` on a file with a single blank line between two lines drops that blank line. */
  lemma SqueezeFileDropsBlankLine(x: seq<char>, a: seq<char>, b: seq<char>, fs: map<seq<char>, seq<char>>)
    requires x in fs && fs[x] == a + "\n\n" + b && !IsOptionWord(x)
    requires a != [] && '\n' !in a && '\n' !in b
    ensures Main(["cat", "-s", x], [], fs, false) == (a + "\n" + b, None)
  {
    var args: seq<seq<char>> := ["cat", "-s", x];
    assert args[1][1..] == "s";
    assert Letters(NoFlags, "s") == Ok(SqueezeOnly);
    assert Options(args, 2, SqueezeOnly) == Ok((SqueezeOnly, 2));
    assert Options(args, 1, NoFlags) == Ok((SqueezeOnly, 2));
    assert args[2..] == [x];
    assert Main(args, [], fs, false) == Files(SqueezeOnly, [x], fs, false);
    SqueezeDropsBlankLine(a, b);
    assert [x][1..] == [];
    assert Files(SqueezeOnly, [x], fs, false) == (Filter(SqueezeOnly, Fresh, fs[x], false) + [], None);
    assert Filter(SqueezeOnly, Fresh, fs[x], false) == a + "\n" + b;
    assert (a + "\n" + b) + [] == a + "\n" + b;
  }
}
