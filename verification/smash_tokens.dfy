/**
 The tokenizer of the smash shell (user/smash.c:19-51, 155-161): strspn,
 strcspn and next_token walk a C string, and the tokenize loop collects at
 most MAX_ARGS - 1 tokens. A C string ends at its first NUL or at the end of
 the sequence, whichever comes first. Each piece is proved to agree with the
 reference WordScan.Words on strings without a NUL.
 */
module SmashTokens {
  import opened Outcome
  import opened WordScan

  const NUL: char := '\0'
  const MAX_ARGS: nat := 16

  /** The delimiters of the tokenize loop: space, tab, carriage return, newline. */
  const DELIMS: seq<char> := " \t\r\n"

  /**
   strspn(s, chars): the length of the longest prefix of the C string s whose
   characters are all in chars.
   */
  function Strspn(s: seq<char>, chars: seq<char>): (k: nat)
    ensures k <= |s|
    ensures forall i :: 0 <= i < k ==> s[i] != NUL && s[i] in chars
    ensures k < |s| ==> s[k] == NUL || s[k] !in chars
  {
    if s == [] || s[0] == NUL || s[0] !in chars then 0
    else
      var k := Strspn(s[1..], chars);
      assert forall i :: 1 <= i < k + 1 ==> s[i] == s[1..][i - 1];
      1 + k
  }

  /**
   strcspn(s, chars): the index of the first character of s that is in chars,
   or of the end of the C string.
   */
  function Strcspn(s: seq<char>, chars: seq<char>): (k: nat)
    ensures k <= |s|
    ensures forall i :: 0 <= i < k ==> s[i] != NUL && s[i] !in chars
    ensures k < |s| ==> s[k] == NUL || s[k] in chars
  {
    if s == [] || s[0] == NUL || s[0] in chars then 0
    else
      var k := Strcspn(s[1..], chars);
      assert forall i :: 1 <= i < k + 1 ==> s[i] == s[1..][i - 1];
      1 + k
  }

  /**
   next_token(&cur, delim): skip delimiters, take the run up to the next
   delimiter or the end, and move the cursor one past the delimiter that
   ended it. A null cursor (None) or nothing left gives no token and a null
   cursor; a token that reaches the end of the string nulls the cursor too.
   */
  function NextToken(cur: Option<seq<char>>, delims: seq<char>): (r: (Option<seq<char>>, Option<seq<char>>))
    ensures r.0.None? ==> r.1.None?
    ensures r.0.Some? ==> r.0.value != [] && NUL !in r.0.value
    ensures r.1.Some? ==> cur.Some? && |r.1.value| < |cur.value|
  {
    if cur.None? then (None, None)
    else
      var s := cur.value;
      var start := Strspn(s, delims);
      var t := s[start..];
      var len := Strcspn(t, delims);
      if len == 0 then (None, None)
      else
        var tok := t[..len];
        assert forall i :: 0 <= i < |tok| ==> tok[i] == t[i];
        if len == |t| || t[len] == NUL then (Some(tok), None)
        else (Some(tok), Some(t[len + 1..]))
  }

  /**
   The token next_token hands out on a C string without NUL is its first
   word, and the cursor is left at a string holding the rest of its words.
   */
  lemma NextTokenWords(s: seq<char>, delims: seq<char>, tok: Option<seq<char>>, next: Option<seq<char>>)
    requires NUL !in s && NextToken(Some(s), delims) == (tok, next)
    ensures tok.None? ==> Words(s, delims) == []
    ensures tok.Some? ==> Words(s, delims) == [tok.value] + (if next.None? then [] else Words(next.value, delims))
    ensures next.Some? ==> NUL !in next.value
  {
    var start := Strspn(s, delims);
    var t := s[start..];
    var len := Strcspn(t, delims);
    var pre := s[..start];
    assert AllIn(pre, delims);
    if len == 0 {
      assert t == [];
      assert s == pre;
      NoWords(pre, delims);
    } else {
      TokenParts(s, start, len);
      var w := t[..len];
      var rest := t[len..];
      assert IsWord(w, delims);
      assert rest == [] || rest[0] in delims;
      WordsStep(pre, w, rest, delims);
      if rest != [] {
        assert rest[1..] == t[len + 1..];
        assert t[len + 1..] == s[start + len + 1..];
      }
    }
  }

  /** A string is its first start characters, the next len, and the rest. */
  lemma TokenParts(s: seq<char>, start: nat, len: nat)
    requires start + len <= |s|
    ensures s == s[..start] + s[start..][..len] + s[start..][len..]
  {
  }

  /** The first n tokens of the loop from cursor cur, stopping early when next_token gives none. */
  function TokensFrom(cur: Option<seq<char>>, delims: seq<char>, n: nat): (ts: seq<seq<char>>)
    ensures |ts| <= n
    decreases n
  {
    if n == 0 then []
    else
      var r := NextToken(cur, delims);
      if r.0.None? then [] else [r.0.value] + TokensFrom(r.1, delims, n - 1)
  }

  /** The tokenize loop of smash: at most MAX_ARGS - 1 tokens, the array then null-terminated. */
  function Tokenize(line: seq<char>): (args: seq<seq<char>>)
    ensures |args| <= MAX_ARGS - 1
  {
    TokensFrom(Some(line), DELIMS, MAX_ARGS - 1)
  }

  /** The words left to a cursor: none for a null cursor. */
  function CursorWords(cur: Option<seq<char>>, delims: seq<char>): seq<seq<char>> {
    if cur.None? then [] else Words(cur.value, delims)
  }

  /** A cursor is a C string without NUL, or null. */
  predicate NulFreeCursor(cur: Option<seq<char>>) {
    cur.Some? ==> NUL !in cur.value
  }

  /** The tokenize loop from a cursor yields the first n words left to it. */
  lemma {:induction false} TokensFromWords(cur: Option<seq<char>>, delims: seq<char>, n: nat)
    requires NulFreeCursor(cur)
    ensures TokensFrom(cur, delims, n) == Take(CursorWords(cur, delims), n)
    decreases n
  {
    if n == 0 {
      assert Take(CursorWords(cur, delims), 0) == [];
    } else {
      var next, w := Advance(cur, delims, n);
      TokensFromWords(next, delims, n - 1);
      TakeStep(CursorWords(cur, delims), TokensFrom(cur, delims, n), w,
               CursorWords(next, delims), TokensFrom(next, delims, n - 1), n);
    }
  }

  /** The step of the induction above, on plain sequences: tokens ts of words ws. */
  lemma TakeStep(ws: seq<seq<char>>, ts: seq<seq<char>>, w: seq<char>, ws': seq<seq<char>>, ts': seq<seq<char>>, n: nat)
    requires n > 0 && ts' == Take(ws', n - 1)
    requires ws == [] ==> ts == []
    requires ws != [] ==> ws == [w] + ws' && ts == [w] + ts'
    ensures ts == Take(ws, n)
  {
    if ws == [] {
      assert Take(ws, n) == [];
    } else {
      TakeCons(w, ws', n);
    }
  }

  /**
   One turn of the tokenize loop in terms of words: no token when no words
   are left, otherwise the first word w followed by the tokens from a cursor
   left with the rest.
   */
  lemma Advance(cur: Option<seq<char>>, delims: seq<char>, n: nat) returns (next: Option<seq<char>>, w: seq<char>)
    requires NulFreeCursor(cur) && n > 0
    ensures NulFreeCursor(next)
    ensures CursorWords(cur, delims) == [] ==> TokensFrom(cur, delims, n) == []
    ensures CursorWords(cur, delims) != [] ==> CursorWords(cur, delims) == [w] + CursorWords(next, delims)
    ensures CursorWords(cur, delims) != [] ==> TokensFrom(cur, delims, n) == [w] + TokensFrom(next, delims, n - 1)
  {
    var r := NextToken(cur, delims);
    next := r.1;
    w := if r.0.Some? then r.0.value else [];
    TokensFromStep(cur, delims, n, r.0, r.1);
    if cur.Some? {
      NextTokenWords(cur.value, delims, r.0, r.1);
    }
  }

  /** One turn of the tokenize loop: the token next_token gives, then the loop from the new cursor. */
  lemma TokensFromStep(cur: Option<seq<char>>, delims: seq<char>, n: nat, tok: Option<seq<char>>, next: Option<seq<char>>)
    requires n > 0 && NextToken(cur, delims) == (tok, next)
    ensures TokensFrom(cur, delims, n) == if tok.None? then [] else [tok.value] + TokensFrom(next, delims, n - 1)
  {
  }

  /** smash's arguments are the first MAX_ARGS - 1 words of the line. */
  lemma TokenizeWords(line: seq<char>)
    requires NUL !in line
    ensures Tokenize(line) == Take(Words(line, DELIMS), MAX_ARGS - 1)
    ensures forall k :: 0 <= k < |Tokenize(line)| ==> IsWord(Tokenize(line)[k], DELIMS)
  {
    TokensFromWords(Some(line), DELIMS, MAX_ARGS - 1);
    WordsAreWords(line, DELIMS);
  }
}
