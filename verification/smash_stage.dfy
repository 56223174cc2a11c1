/**
 One stage of a smash pipeline in the child (user/smash.c:58-90, 245-268):
 the redirection loop applies every operator of the stage, the words before
 the first operator become argv, and execvp tries the paths in order. The
 opens, dups and execs themselves are left to the caller; the model gives
 the files the child ends up reading and writing and the paths it tries.
 */
module SmashStage {
  import opened Outcome

  predicate IsRedirect(w: seq<char>) {
    w == "<" || w == ">" || w == ">>"
  }

  /** An operator and the word after it. */
  datatype Redirect = Redirect(op: seq<char>, file: seq<char>)

  /**
   The redirection loop from slot j: an operator takes the next word as its
   file, and the loop goes on at that word, so a file named like an operator
   is applied as one too. None is the "syntax error" of an operator with no
   word after it.
   */
  function Redirections(seg: seq<seq<char>>, j: nat): (r: Option<seq<Redirect>>)
    requires j <= |seg|
    ensures r.None? <==> j < |seg| && IsRedirect(seg[|seg| - 1])
    ensures r.Some? ==> forall k :: 0 <= k < |r.value| ==> IsRedirect(r.value[k].op)
    decreases |seg| - j
  {
    if j == |seg| then Some([])
    else if IsRedirect(seg[j]) then
      if j + 1 == |seg| then None
      else
        var rest := Redirections(seg, j + 1);
        if rest.None? then None else Some([Redirect(seg[j], seg[j + 1])] + rest.value)
    else Redirections(seg, j + 1)
  }

  /** Every operator at or after slot j is applied, with the word after it. */
  lemma {:induction false} RedirectionsComplete(seg: seq<seq<char>>, j: nat, i: nat)
    requires j <= i < |seg| - 1 && IsRedirect(seg[i]) && Redirections(seg, j).Some?
    ensures Redirect(seg[i], seg[i + 1]) in Redirections(seg, j).value
    decreases |seg| - j
  {
    if j < i {
      RedirectionsComplete(seg, j + 1, i);
    }
  }

  /** Every redirection applied comes from an operator at or after slot j and the word after it. */
  lemma {:induction false} RedirectionsSound(seg: seq<seq<char>>, j: nat, k: nat) returns (i: nat)
    requires j <= |seg| && Redirections(seg, j).Some? && k < |Redirections(seg, j).value|
    ensures j <= i < |seg| - 1 && IsRedirect(seg[i])
    ensures Redirections(seg, j).value[k] == Redirect(seg[i], seg[i + 1])
    decreases |seg| - j
  {
    var rs := Redirections(seg, j).value;
    if IsRedirect(seg[j]) && k == 0 {
      i := j;
    } else if IsRedirect(seg[j]) {
      i := RedirectionsSound(seg, j + 1, k - 1);
    } else {
      i := RedirectionsSound(seg, j + 1, k);
    }
  }

  /**
   The files the redirection loop opens from slot j, in order, before it
   stops: every operator with a word after it, whether or not a later
   operator ends the loop with a syntax error. A ">" truncates its file at
   that moment, so these opens happen even when the child then fails.
   */
  function Applied(seg: seq<seq<char>>, j: nat): (r: seq<Redirect>)
    requires j <= |seg|
    ensures forall k :: 0 <= k < |r| ==> IsRedirect(r[k].op)
    ensures Redirections(seg, j).Some? ==> r == Redirections(seg, j).value
    decreases |seg| - j
  {
    if j == |seg| then []
    else if IsRedirect(seg[j]) then
      if j + 1 == |seg| then [] else [Redirect(seg[j], seg[j + 1])] + Applied(seg, j + 1)
    else Applied(seg, j + 1)
  }

  /** Every operator at or after slot j with a word after it is opened, even ahead of a syntax error. */
  lemma {:induction false} AppliedComplete(seg: seq<seq<char>>, j: nat, i: nat)
    requires j <= i < |seg| - 1 && IsRedirect(seg[i])
    ensures Redirect(seg[i], seg[i + 1]) in Applied(seg, j)
    decreases |seg| - j
  {
    if j < i {
      AppliedComplete(seg, j + 1, i);
    }
  }

  /** Every file opened comes from an operator at or after slot j and the word after it. */
  lemma {:induction false} AppliedSound(seg: seq<seq<char>>, j: nat, k: nat) returns (i: nat)
    requires j <= |seg| && k < |Applied(seg, j)|
    ensures j <= i < |seg| - 1 && IsRedirect(seg[i])
    ensures Applied(seg, j)[k] == Redirect(seg[i], seg[i + 1])
    decreases |seg| - j
  {
    if IsRedirect(seg[j]) && k == 0 {
      i := j;
    } else if IsRedirect(seg[j]) {
      i := AppliedSound(seg, j + 1, k - 1);
    } else {
      i := AppliedSound(seg, j + 1, k);
    }
  }

  /** The index of the first operator of seg, or |seg|: argv ends there. */
  function FirstRedirect(seg: seq<seq<char>>): (q: nat)
    ensures q <= |seg| && forall i :: 0 <= i < q ==> !IsRedirect(seg[i])
    ensures q < |seg| ==> IsRedirect(seg[q])
  {
    if seg == [] || IsRedirect(seg[0]) then 0
    else
      var q := FirstRedirect(seg[1..]);
      assert forall i :: 1 <= i < q + 1 ==> seg[i] == seg[1..][i - 1];
      1 + q
  }

  /** The file the last "<" names, which fd 0 is left open on. */
  function Stdin(rs: seq<Redirect>): (r: Option<seq<char>>)
    ensures r.Some? <==> exists k :: 0 <= k < |rs| && rs[k].op == "<"
    ensures r.Some? ==> Redirect("<", r.value) in rs
  {
    if rs == [] then None
    else if rs[|rs| - 1].op == "<" then Some(rs[|rs| - 1].file)
    else
      var r := Stdin(rs[..|rs| - 1]);
      assert forall k :: 0 <= k < |rs| - 1 ==> rs[..|rs| - 1][k] == rs[k];
      r
  }

  predicate IsOutput(op: seq<char>) {
    op == ">" || op == ">>"
  }

  /** The file the last ">" or ">>" names, and whether it appends: where fd 1 is left open. */
  function Stdout(rs: seq<Redirect>): (r: Option<(seq<char>, bool)>)
    ensures r.Some? <==> exists k :: 0 <= k < |rs| && IsOutput(rs[k].op)
    ensures r.Some? ==> Redirect(if r.value.1 then ">>" else ">", r.value.0) in rs
  {
    if rs == [] then None
    else if IsOutput(rs[|rs| - 1].op) then Some((rs[|rs| - 1].file, rs[|rs| - 1].op == ">>"))
    else
      var r := Stdout(rs[..|rs| - 1]);
      assert forall k :: 0 <= k < |rs| - 1 ==> rs[..|rs| - 1][k] == rs[k];
      r
  }

  /**
   Lines 71-79: "/" followed by cmd, copied while the buffer index stays
   below 127, so that the path and its NUL fit in 128 bytes.
   */
  method RootPath(cmd: seq<char>) returns (path: seq<char>)
    ensures 1 <= |path| <= 127 && |path| - 1 <= |cmd| && path[0] == '/'
    ensures path[1..] == cmd[..|path| - 1]
    ensures |path| < 127 ==> path[1..] == cmd
  {
    path := ['/'];
    var q := 0;
    while q < |cmd| && |path| < 127
      invariant q <= |cmd| && |path| == q + 1 && |path| <= 127
      invariant path[0] == '/' && path[1..] == cmd[..q]
      decreases |cmd| - q
    {
      path := path + [cmd[q]];
      q := q + 1;
    }
  }

  /** Lines 58-90: the paths execvp hands to exec, in order. */
  method Candidates(cmd: seq<char>) returns (paths: seq<seq<char>>)
    ensures '/' in cmd ==> paths == [cmd]
    ensures '/' !in cmd ==> |paths| == 2 && paths[1] == cmd
    ensures '/' !in cmd ==> 1 <= |paths[0]| <= 127 && |paths[0]| - 1 <= |cmd|
    ensures '/' !in cmd ==> paths[0][0] == '/' && paths[0][1..] == cmd[..|paths[0]| - 1]
    ensures '/' !in cmd && |cmd| <= 125 ==> paths[0] == ['/'] + cmd
  {
    if '/' in cmd {
      paths := [cmd];
    } else {
      var root := RootPath(cmd);
      assert |root| < 127 || |cmd| >= 126;
      assert root == [root[0]] + root[1..];
      paths := [root, cmd];
    }
  }

  /**
   What the child of one stage does. Every case records the files the
   redirection loop opened, in order: a syntax error comes after the opens
   of the operators before it.
   */
  datatype Child =
    | SyntaxError(applied: seq<Redirect>)
    | NoCommand(opens: seq<Redirect>)
    | Exec(argv: seq<seq<char>>, opens: seq<Redirect>, stdin: Option<seq<char>>, stdout: Option<(seq<char>, bool)>)

  /** The files a child opened, whichever way it ended. */
  function OpenedBy(c: Child): seq<Redirect> {
    if c.SyntaxError? then c.applied else c.opens
  }

  /**
   Lines 245-268: the redirection loop first, then execvp on the words
   before the first operator. NoCommand is a stage with no such word.
   */
  function StageChild(seg: seq<seq<char>>): (c: Child)
    ensures c.SyntaxError? <==> seg != [] && IsRedirect(seg[|seg| - 1])
    ensures c.NoCommand? <==> !c.SyntaxError? && (seg == [] || IsRedirect(seg[0]))
    ensures c.Exec? ==> c.argv != [] && |c.argv| <= |seg| && c.argv == seg[..|c.argv|] && (|c.argv| < |seg| ==> IsRedirect(seg[|c.argv|]))
    ensures c.Exec? ==> forall k :: 0 <= k < |c.argv| ==> !IsRedirect(c.argv[k])
    ensures OpenedBy(c) == Applied(seg, 0)
    ensures c.Exec? ==> c.stdin == Stdin(c.opens) && c.stdout == Stdout(c.opens)
  {
    var rs := Redirections(seg, 0);
    if rs.None? then SyntaxError(Applied(seg, 0))
    else
      var argv := seg[..FirstRedirect(seg)];
      if argv == [] then NoCommand(rs.value) else Exec(argv, rs.value, Stdin(rs.value), Stdout(rs.value))
  }

  /**
   Every operator of a stage with a word after it has its file opened by the
   child, whether the child then runs, finds no command, or stops at a
   syntax error; and nothing else is opened.
   */
  lemma StageOpens(seg: seq<seq<char>>)
    ensures forall i :: 0 <= i < |seg| - 1 && IsRedirect(seg[i]) ==> Redirect(seg[i], seg[i + 1]) in OpenedBy(StageChild(seg))
    ensures forall k :: 0 <= k < |OpenedBy(StageChild(seg))| ==>
              exists i :: 0 <= i < |seg| - 1 && IsRedirect(seg[i]) && OpenedBy(StageChild(seg))[k] == Redirect(seg[i], seg[i + 1])
  {
    var files := OpenedBy(StageChild(seg));
    assert files == Applied(seg, 0);
    forall i | 0 <= i < |seg| - 1 && IsRedirect(seg[i])
      ensures Redirect(seg[i], seg[i + 1]) in files
    {
      AppliedComplete(seg, 0, i);
    }
    forall k | 0 <= k < |files|
      ensures exists i :: 0 <= i < |seg| - 1 && IsRedirect(seg[i]) && files[k] == Redirect(seg[i], seg[i + 1])
    {
      var i := AppliedSound(seg, 0, k);
    }
  }

  /**
   An example, next to the general RedirectionsComplete: both the input and
   the output of `cmd < inf > outf` are redirected.
   */
  lemma EveryOperatorApplies(cmd: seq<char>, inf: seq<char>, outf: seq<char>)
    requires !IsRedirect(cmd) && !IsRedirect(inf) && !IsRedirect(outf)
    ensures StageChild([cmd, "<", inf, ">", outf]) ==
            Exec([cmd], [Redirect("<", inf), Redirect(">", outf)], Some(inf), Some((outf, false)))
  {
    var seg: seq<seq<char>> := [cmd, "<", inf, ">", outf];
    assert !IsRedirect(seg[0]) && IsRedirect(seg[1]) && !IsRedirect(seg[2]) && IsRedirect(seg[3]) && !IsRedirect(seg[4]);
    var r3 := Redirections(seg, 3);
    assert r3.value == [Redirect(seg[3], seg[4])] + Redirections(seg, 4).value;
    assert r3.value == [Redirect(">", outf)];
    var r1 := Redirections(seg, 1);
    assert r1.value == [Redirect(seg[1], seg[2])] + Redirections(seg, 2).value;
    var rs := r1.value;
    assert rs == [Redirect("<", inf), Redirect(">", outf)];
    assert Redirections(seg, 0) == r1;
    assert FirstRedirect(seg) == 1 && seg[..1] == [cmd];
    assert Stdout(rs) == Some((outf, false));
    assert rs[..1] == [Redirect("<", inf)];
    assert Stdin(rs) == Some(inf);
  }

  /** An example, next to the general Stdin: the last of two input redirections wins. */
  lemma LastInputWins(a: seq<char>, b: seq<char>)
    requires !IsRedirect(a) && !IsRedirect(b)
    ensures Stdin(Redirections(["cat", "<", a, "<", b], 0).value) == Some(b)
  {
    var seg: seq<seq<char>> := ["cat", "<", a, "<", b];
    assert !IsRedirect(seg[0]) && IsRedirect(seg[1]) && !IsRedirect(seg[2]) && IsRedirect(seg[3]) && !IsRedirect(seg[4]);
    var r3 := Redirections(seg, 3);
    assert r3.value == [Redirect(seg[3], seg[4])] + Redirections(seg, 4).value;
    assert r3.value == [Redirect("<", b)];
    var r1 := Redirections(seg, 1);
    assert r1.value == [Redirect(seg[1], seg[2])] + Redirections(seg, 2).value;
    assert r1.value == [Redirect("<", a), Redirect("<", b)];
  }

  /**
   An example, next to the general StageOpens: `cmd > f >` opens (and so
   truncates) f before the dangling operator stops the child.
   */
  lemma TruncatesBeforeSyntaxError(cmd: seq<char>, f: seq<char>)
    requires !IsRedirect(cmd) && !IsRedirect(f)
    ensures StageChild([cmd, ">", f, ">"]) == SyntaxError([Redirect(">", f)])
  {
    var seg: seq<seq<char>> := [cmd, ">", f, ">"];
    assert !IsRedirect(seg[0]) && IsRedirect(seg[1]) && !IsRedirect(seg[2]) && IsRedirect(seg[3]);
    assert Applied(seg, 3) == [];
    assert Applied(seg, 1) == [Redirect(seg[1], seg[2])] + Applied(seg, 2);
  }

  /**
   An example, next to the general StageOpens: `cmd > a > b` opens both
   files, so both are truncated, though only b becomes stdout.
   */
  lemma BothOutputsOpened(cmd: seq<char>, a: seq<char>, b: seq<char>)
    requires !IsRedirect(cmd) && !IsRedirect(a) && !IsRedirect(b)
    ensures StageChild([cmd, ">", a, ">", b]) ==
            Exec([cmd], [Redirect(">", a), Redirect(">", b)], None, Some((b, false)))
  {
    var seg: seq<seq<char>> := [cmd, ">", a, ">", b];
    assert !IsRedirect(seg[0]) && IsRedirect(seg[1]) && !IsRedirect(seg[2]) && IsRedirect(seg[3]) && !IsRedirect(seg[4]);
    var r3 := Redirections(seg, 3);
    assert r3.value == [Redirect(seg[3], seg[4])] + Redirections(seg, 4).value;
    assert r3.value == [Redirect(">", b)];
    var r1 := Redirections(seg, 1);
    assert r1.value == [Redirect(seg[1], seg[2])] + Redirections(seg, 2).value;
    var rs := r1.value;
    assert rs == [Redirect(">", a), Redirect(">", b)];
    assert Redirections(seg, 0) == r1;
    assert FirstRedirect(seg) == 1 && seg[..1] == [cmd];
    assert Stdout(rs) == Some((b, false));
    assert Stdin(rs) == None;
  }
}
