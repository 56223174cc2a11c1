/**
 The reference meaning of "the words of a line": the maximal runs of
 characters that are not delimiters, in order. It is defined as a one-pass
 scan that accumulates the current word, independently of the pointer-walking
 tokenizers of the two shells, which are proved to agree with it.
 */
module WordScan {

  /** Words of s separated by any character of delims. */
  function Words(s: seq<char>, delims: seq<char>): seq<seq<char>> {
    Scan(s, delims, [])
  }

  /** Continue scanning s with cur the word read so far. */
  function Scan(s: seq<char>, delims: seq<char>, cur: seq<char>): seq<seq<char>>
    decreases |s|
  {
    if s == [] then (if cur == [] then [] else [cur])
    else if s[0] in delims then
      (if cur == [] then Scan(s[1..], delims, []) else [cur] + Scan(s[1..], delims, []))
    else Scan(s[1..], delims, cur + [s[0]])
  }

  predicate AllIn(s: seq<char>, delims: seq<char>) {
    forall i :: 0 <= i < |s| ==> s[i] in delims
  }

  predicate NoneIn(s: seq<char>, delims: seq<char>) {
    forall i :: 0 <= i < |s| ==> s[i] !in delims
  }

  /** A word: non-empty and free of delimiters. */
  predicate IsWord(w: seq<char>, delims: seq<char>) {
    w != [] && NoneIn(w, delims)
  }

  lemma {:induction false} ScanWords(s: seq<char>, delims: seq<char>, cur: seq<char>)
    requires NoneIn(cur, delims)
    ensures forall k :: 0 <= k < |Scan(s, delims, cur)| ==> IsWord(Scan(s, delims, cur)[k], delims)
    decreases |s|
  {
    if s != [] {
      if s[0] in delims {
        ScanWords(s[1..], delims, []);
      } else {
        ScanWords(s[1..], delims, cur + [s[0]]);
      }
    }
  }

  /** Every word is non-empty and contains no delimiter. */
  lemma WordsAreWords(s: seq<char>, delims: seq<char>)
    ensures forall k :: 0 <= k < |Words(s, delims)| ==> IsWord(Words(s, delims)[k], delims)
  {
    ScanWords(s, delims, []);
  }

  /** Leading delimiters do not produce words. */
  lemma {:induction false} SkipDelims(pre: seq<char>, rest: seq<char>, delims: seq<char>)
    requires AllIn(pre, delims)
    ensures Words(pre + rest, delims) == Words(rest, delims)
  {
    if pre != [] {
      assert (pre + rest)[0] == pre[0] && (pre + rest)[1..] == pre[1..] + rest;
      assert Words(pre + rest, delims) == Words(pre[1..] + rest, delims);
      SkipDelims(pre[1..], rest, delims);
    } else {
      assert pre + rest == rest;
    }
  }

  lemma {:induction false} ScanWord(w: seq<char>, i: nat, rest: seq<char>, delims: seq<char>)
    requires i <= |w| && IsWord(w, delims)
    requires rest == [] || rest[0] in delims
    ensures Scan(w[i..] + rest, delims, w[..i]) ==
            [w] + (if rest == [] then [] else Words(rest[1..], delims))
    decreases |w| - i
  {
    if i < |w| {
      assert (w[i..] + rest)[1..] == w[i + 1..] + rest;
      assert w[..i] + [w[i]] == w[..i + 1];
      ScanWord(w, i + 1, rest, delims);
    } else {
      assert w[i..] + rest == rest;
      assert w[..i] == w;
    }
  }

  /**
   Decomposition: a line made of delimiters, then a word, then either the end
   or a delimiter, has that word first and the words after the delimiter next.
   This is the step every tokenizer takes.
   */
  lemma WordsStep(pre: seq<char>, w: seq<char>, rest: seq<char>, delims: seq<char>)
    requires AllIn(pre, delims) && IsWord(w, delims)
    requires rest == [] || rest[0] in delims
    ensures Words(pre + w + rest, delims) ==
            [w] + (if rest == [] then [] else Words(rest[1..], delims))
  {
    assert pre + w + rest == pre + (w + rest);
    SkipDelims(pre, w + rest, delims);
    ScanWord(w, 0, rest, delims);
    assert w[0..] + rest == w + rest;
  }

  /** A line of delimiters only has no words. */
  lemma NoWords(pre: seq<char>, delims: seq<char>)
    requires AllIn(pre, delims)
    ensures Words(pre, delims) == []
  {
    SkipDelims(pre, [], delims);
    assert pre + [] == pre;
  }

  /** The first n words of ws, or all of them when there are fewer: what a bounded argv array keeps. */
  function Take(ws: seq<seq<char>>, n: nat): (r: seq<seq<char>>)
    ensures |r| == (if n < |ws| then n else |ws|) && r == ws[..|r|]
  {
    if n < |ws| then ws[..n] else ws
  }

  /** Taking n > 0 words of a list that starts with w is w and n - 1 of the rest. */
  lemma TakeCons(w: seq<char>, ws: seq<seq<char>>, n: nat)
    requires n > 0
    ensures Take([w] + ws, n) == [w] + Take(ws, n - 1)
  {
    if n - 1 < |ws| {
      assert ([w] + ws)[..n] == [w] + ws[..n - 1];
    }
  }


  /** The C string held in buf: everything before its first NUL, or all of it. */
  function CString(buf: seq<char>): (s: seq<char>)
    ensures |s| <= |buf| && s == buf[..|s|] && '\0' !in s
    ensures |s| < |buf| ==> buf[|s|] == '\0'
  {
    if buf == [] || buf[0] == '\0' then []
    else
      var rest := CString(buf[1..]);
      assert [buf[0]] + rest == buf[..|rest| + 1];
      [buf[0]] + rest
  }
}
