/**
 The command history of the smash shell (user/smash.c:6-16, 128-146,
 176-181, 189-199): a ring of MAX_HISTORY slots indexed by cmd_count, the
 number the next stored command gets. The ring is related to the whole log
 of stored commands: it holds the last MAX_HISTORY of them, and every lookup
 is proved to answer what the log says.
 */
module SmashHistory {
  import opened Outcome

  const MAX_HISTORY: nat := 100

  type Entry = seq<char>

  /** The history array and cmd_count. */
  datatype History = History(slots: seq<Entry>, count: int)

  /** The shell's start: empty slots and cmd_count 1. */
  function Initial(): (h: History)
    ensures |h.slots| == MAX_HISTORY && h.count == 1
  {
    History(seq(MAX_HISTORY, _ => []), 1)
  }

  /** The 0-based index of the oldest command of a log of n that the ring still holds. */
  function Oldest(n: nat): (o: nat)
    ensures o <= n && n - o <= MAX_HISTORY
    ensures n <= MAX_HISTORY ==> o == 0
  {
    if n < MAX_HISTORY then 0 else n - MAX_HISTORY
  }

  /** The ring holds the last MAX_HISTORY commands of log, command i (0-based) in slot i % MAX_HISTORY. */
  predicate Agrees(h: History, log: seq<Entry>) {
    |h.slots| == MAX_HISTORY && h.count == |log| + 1 &&
    forall i :: Oldest(|log|) <= i < |log| ==> h.slots[i % MAX_HISTORY] == log[i]
  }

  lemma InitialAgrees()
    ensures Agrees(Initial(), [])
  {
  }

  /** Storing a command: slot (cmd_count - 1) % MAX_HISTORY, then cmd_count + 1. */
  function Store(h: History, cmd: Entry): (r: History)
    requires |h.slots| == MAX_HISTORY && h.count >= 1
    ensures |r.slots| == MAX_HISTORY && r.count == h.count + 1
    ensures r.slots[(h.count - 1) % MAX_HISTORY] == cmd
    ensures forall k :: 0 <= k < MAX_HISTORY && k != (h.count - 1) % MAX_HISTORY ==> r.slots[k] == h.slots[k]
  {
    History(h.slots[(h.count - 1) % MAX_HISTORY := cmd], h.count + 1)
  }

  /** Two commands fewer than MAX_HISTORY apart use different slots. */
  lemma DistinctSlots(i: int, n: int)
    requires 0 <= i < n < i + MAX_HISTORY
    ensures i % MAX_HISTORY != n % MAX_HISTORY
  {
  }

  /** Storing a command appends it to the log the ring holds. */
  lemma StoreAgrees(h: History, log: seq<Entry>, cmd: Entry)
    requires Agrees(h, log)
    ensures Agrees(Store(h, cmd), log + [cmd])
  {
    var r := Store(h, cmd);
    var log' := log + [cmd];
    var n := |log|;
    forall i | Oldest(n + 1) <= i < n + 1
      ensures r.slots[i % MAX_HISTORY] == log'[i]
    {
      if i < n {
        DistinctSlots(i, n);
        assert log'[i] == log[i];
      }
    }
  }

  /** `!!`: the slot of command cmd_count - 1, when there is one. */
  function Last(h: History): (r: Option<Entry>)
    requires |h.slots| == MAX_HISTORY
    ensures r.Some? <==> h.count > 1
  {
    if h.count > 1 then Some(h.slots[(h.count - 2) % MAX_HISTORY]) else None
  }

  /** `!!` recalls the newest command of the log. */
  lemma LastAgrees(h: History, log: seq<Entry>)
    requires Agrees(h, log)
    ensures Last(h) == if log == [] then None else Some(log[|log| - 1])
  {
    if log != [] {
      assert Oldest(|log|) <= |log| - 1;
    }
  }

  /** `!n`: command n, when it is still in the ring. */
  function Numbered(h: History, n: int): (r: Option<Entry>)
    requires |h.slots| == MAX_HISTORY
    ensures r.Some? <==> 0 < n < h.count && n >= h.count - MAX_HISTORY
  {
    if 0 < n < h.count && n >= h.count - MAX_HISTORY then Some(h.slots[(n - 1) % MAX_HISTORY]) else None
  }

  /** A command number the log still has in the ring: one of the last MAX_HISTORY. */
  predicate Recent(log: seq<Entry>, n: int) {
    Oldest(|log|) < n <= |log|
  }

  /** `!n` recalls command n of the log exactly when it is one of the last MAX_HISTORY. */
  lemma NumberedAgrees(h: History, log: seq<Entry>, n: int)
    requires Agrees(h, log)
    ensures Numbered(h, n) == if Recent(log, n) then Some(log[n - 1]) else None
  {
    if Recent(log, n) {
      assert Oldest(|log|) <= n - 1 < |log|;
    }
  }

  /** The int atoi returns: the value of the digits with 32-bit wrap-around. */
  function Int32(v: int): (r: int)
    ensures -0x8000_0000 <= r < 0x8000_0000
    ensures (v - r) % 0x1_0000_0000 == 0
    ensures 0 <= v < 0x8000_0000 ==> r == v
  {
    var m := v % 0x1_0000_0000;
    if m < 0x8000_0000 then m else m - 0x1_0000_0000
  }

  /** p is a prefix of s: the comparison loop of `!prefix` finds no mismatch before p's NUL. */
  predicate StartsWith(s: Entry, p: Entry) {
    |p| <= |s| && s[..|p|] == p
  }

  /**
   The `!prefix` scan: slots of commands i + 1, i, ... down to the oldest the
   ring holds, the first whose text starts with p.
   */
  function PrefixScan(h: History, p: Entry, i: int): (r: Option<Entry>)
    requires |h.slots| == MAX_HISTORY
    ensures r.Some? ==> StartsWith(r.value, p)
    decreases i + 1
  {
    if i < 0 || i < h.count - 1 - MAX_HISTORY then None
    else if StartsWith(h.slots[i % MAX_HISTORY], p) then Some(h.slots[i % MAX_HISTORY])
    else PrefixScan(h, p, i - 1)
  }

  /** `!prefix`: the scan from the newest command, cmd_count - 1 (index cmd_count - 2). */
  function PrefixLookup(h: History, p: Entry): (r: Option<Entry>)
    requires |h.slots| == MAX_HISTORY
    ensures r.Some? ==> StartsWith(r.value, p)
  {
    PrefixScan(h, p, h.count - 2)
  }

  /**
   The reference: the index of the newest of log[lo..k] that starts with p.
   */
  function NewestIndex(log: seq<Entry>, p: Entry, lo: nat, k: nat): (r: Option<nat>)
    requires k <= |log|
    ensures r.Some? ==> lo <= r.value < k && StartsWith(log[r.value], p)
    ensures r.Some? ==> forall j :: r.value < j < k ==> !StartsWith(log[j], p)
    ensures r.None? ==> forall j :: lo <= j < k ==> !StartsWith(log[j], p)
    decreases k
  {
    if k <= lo then None
    else if StartsWith(log[k - 1], p) then Some(k - 1)
    else NewestIndex(log, p, lo, k - 1)
  }

  /** The scan from index k - 1 finds the newest command of the ring's part of log[..k] with prefix p. */
  lemma {:induction false} PrefixScanAgrees(h: History, log: seq<Entry>, p: Entry, k: nat)
    requires Agrees(h, log) && k <= |log|
    ensures var j := NewestIndex(log, p, Oldest(|log|), k);
            PrefixScan(h, p, k - 1) == if j.None? then None else Some(log[j.value])
    decreases k
  {
    if k > Oldest(|log|) {
      assert h.slots[(k - 1) % MAX_HISTORY] == log[k - 1];
      if !StartsWith(log[k - 1], p) {
        PrefixScanAgrees(h, log, p, k - 1);
      }
    }
  }

  /** `!prefix` recalls the newest of the last MAX_HISTORY commands that starts with the prefix. */
  lemma PrefixLookupAgrees(h: History, log: seq<Entry>, p: Entry)
    requires Agrees(h, log)
    ensures var j := NewestIndex(log, p, Oldest(|log|), |log|);
            PrefixLookup(h, p) == if j.None? then None else Some(log[j.value])
  {
    PrefixScanAgrees(h, log, p, |log|);
  }

  /** The `history` listing from command i on: its number and its slot. */
  function ListFrom(h: History, i: int): (r: seq<(int, Entry)>)
    requires |h.slots| == MAX_HISTORY && i >= 1
    ensures |r| == if i < h.count then h.count - i else 0
    decreases h.count - i
  {
    if i >= h.count then []
    else [(i, h.slots[(i - 1) % MAX_HISTORY])] + ListFrom(h, i + 1)
  }

  /** The `history` command: from command cmd_count - MAX_HISTORY, or 1, to the newest. */
  function Listing(h: History): (r: seq<(int, Entry)>)
    requires |h.slots| == MAX_HISTORY && h.count >= 1
    ensures |r| <= MAX_HISTORY
  {
    var start := if h.count > MAX_HISTORY + 1 then h.count - MAX_HISTORY else 1;
    ListFrom(h, start)
  }

  /** The reference listing: the last MAX_HISTORY commands of the log, numbered from 1. */
  function Recents(log: seq<Entry>, from: nat): (r: seq<(int, Entry)>)
    requires from <= |log|
    ensures |r| == |log| - from
    ensures forall k :: 0 <= k < |r| ==> r[k] == (from + k + 1, log[from + k])
    decreases |log| - from
  {
    if from == |log| then [] else [(from + 1, log[from])] + Recents(log, from + 1)
  }

  lemma {:induction false} ListFromAgrees(h: History, log: seq<Entry>, from: nat)
    requires Agrees(h, log) && Oldest(|log|) <= from <= |log|
    ensures ListFrom(h, from + 1) == Recents(log, from)
    decreases |log| - from
  {
    if from < |log| {
      assert h.slots[from % MAX_HISTORY] == log[from];
      ListFromAgrees(h, log, from + 1);
    }
  }

  /** The `history` listing shows the last MAX_HISTORY commands of the log with their numbers. */
  lemma ListingAgrees(h: History, log: seq<Entry>)
    requires Agrees(h, log)
    ensures Listing(h) == Recents(log, Oldest(|log|))
  {
    assert (if h.count > MAX_HISTORY + 1 then h.count - MAX_HISTORY else 1) == Oldest(|log|) + 1;
    ListFromAgrees(h, log, Oldest(|log|));
  }
}
