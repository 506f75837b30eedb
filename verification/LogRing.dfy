/** The fixed-size buffer behind the log viewer, against the unbounded log it stands for. */
module LogRing {

  datatype Entry = Entry(time: int, level: string, message: string, attrs: map<string, string>)

  function ToLower(s: string): string {
    seq(|s|, i requires 0 <= i < |s| => if 'A' <= s[i] <= 'Z' then s[i] + 32 as char else s[i])
  }

  /** slog's levels; names it does not know count as info. */
  function ParseLevel(s: string): int {
    var l := ToLower(s);
    if l == "debug" then -4
    else if l == "warn" || l == "warning" then 4
    else if l == "error" then 8
    else 0
  }

  /** The severities of the level names in use, whatever their case; a name not listed counts as info. */
  lemma Severities(s: string)
    ensures ToLower("DEBUG") == "debug" && ToLower("Warn") == "warn" && ToLower("WARNING") == "warning"
    ensures ToLower("ERROR") == "error" && ToLower("INFO") == "info"
    ensures ToLower(s) == "debug" ==> ParseLevel(s) == -4
    ensures ToLower(s) == "info" ==> ParseLevel(s) == 0
    ensures ToLower(s) == "warn" || ToLower(s) == "warning" ==> ParseLevel(s) == 4
    ensures ToLower(s) == "error" ==> ParseLevel(s) == 8
    ensures ToLower(s) !in {"debug", "warn", "warning", "error"} ==> ParseLevel(s) == 0
  {
    assert "debug" != "warn" && "debug" != "warning" && "debug"[0] == 'd';
    assert "error"[0] == 'e' && "info"[0] == 'i' && "warn"[0] == 'w' && "warning"[0] == 'w';
  }

  // ----------------------------------------------------------- specification

  /** The last n entries of a log, newest first. */
  function Newest(log: seq<Entry>, n: nat): seq<Entry>
    requires n <= |log|
  {
    seq(n, i requires 0 <= i < n => log[|log| - 1 - i])
  }

  function AtLeast(es: seq<Entry>, minLevel: int): seq<Entry> {
    if es == [] then []
    else
      var e := es[|es| - 1];
      AtLeast(es[..|es| - 1], minLevel) + (if ParseLevel(e.level) < minLevel then [] else [e])
  }

  function Capped(es: seq<Entry>, limit: int): seq<Entry> {
    if 0 < limit < |es| then es[..limit] else es
  }

  function Min(a: nat, b: nat): nat { if a < b then a else b }

  lemma OneOlder(log: seq<Entry>, i: nat, minLevel: int)
    requires i < |log|
    ensures var e := log[|log| - 1 - i];
      AtLeast(Newest(log, i + 1), minLevel)
        == AtLeast(Newest(log, i), minLevel) + (if ParseLevel(e.level) < minLevel then [] else [e])
  {
    assert Newest(log, i + 1)[..i] == Newest(log, i);
  }

  /** Looking further back only adds entries at the end. */
  lemma {:induction false} OlderComeLast(log: seq<Entry>, i: nat, n: nat, minLevel: int)
    requires i <= n <= |log|
    ensures AtLeast(Newest(log, i), minLevel) <= AtLeast(Newest(log, n), minLevel)
    decreases n - i
  {
    if i < n {
      OneOlder(log, i, minLevel);
      OlderComeLast(log, i + 1, n, minLevel);
    }
  }

  /** Go's % on the indexes the ring computes. */
  lemma WrapIndex(a: nat, size: nat)
    requires 0 < size && a < 2 * size
    ensures a % size == if a < size then a else a - size
  {}

  /** The slots hold the last entries of the log, the oldest of them at `next` once the ring is full. */
  ghost predicate Holds(slots: seq<Entry>, next: nat, full: bool, log: seq<Entry>) {
    && next < |slots|
    && (if full then |log| >= |slots| else |log| == next)
    && (forall j :: 0 <= j < next ==> slots[j] == log[|log| - next + j])
    && (full ==> forall j :: next <= j < |slots| ==> slots[j] == log[|log| - next - |slots| + j])
  }

  /** The index i steps back from the most recently written one. */
  function Back(next: nat, i: nat, size: nat): nat
    requires i < next + size && size > 0
  {
    (next - 1 - i + size) % size
  }

  /** The slot i steps back from the most recently written one. */
  lemma StepsBack(slots: seq<Entry>, next: nat, full: bool, log: seq<Entry>, i: nat)
    requires Holds(slots, next, full, log) && i < if full then |slots| else next
    ensures var idx := Back(next, i, |slots|);
      idx < |slots| && i < |log| && slots[idx] == log[|log| - 1 - i]
  {
    WrapIndex(next - 1 - i + |slots|, |slots|);
  }

  lemma WriteSlot(slots: seq<Entry>, next: nat, full: bool, log: seq<Entry>, e: Entry)
    requires Holds(slots, next, full, log)
    ensures var n := (next + 1) % |slots|;
      Holds(slots[next := e], n, full || n == 0, log + [e])
  {
    WrapIndex(next + 1, |slots|);
  }

  /** The walk starts with nothing and covers what the ring holds. */
  lemma NoneYet(slots: seq<Entry>, next: nat, full: bool, log: seq<Entry>, minLevel: int)
    requires Holds(slots, next, full, log)
    ensures next < |slots| && (if full then |slots| else next) == Min(|slots|, |log|) <= |log|
    ensures AtLeast(Newest(log, 0), minLevel) == []
  {}

  lemma BelowCap(es: seq<Entry>, limit: int)
    requires limit > 0 ==> |es| < limit
    ensures Capped(es, limit) == es
  {}

  /**
   The answer in terms of the log alone: entry k of it is the one at position
   at[k], going back from the newest; each is of the level; of those of the level
   among the last n, the ones left out are older, and there are none if the cap
   was not reached.
   */
  ghost predicate IsAnswer(out: seq<Entry>, at: seq<nat>, log: seq<Entry>, n: nat, minLevel: int, limit: int) {
    && |at| == |out| && (limit > 0 ==> |out| <= limit)
    && (forall k :: 0 <= k < |at| ==>
          |log| - n <= at[k] < |log| && out[k] == log[at[k]] && ParseLevel(out[k].level) >= minLevel)
    && (forall j, k :: 0 <= j < k < |at| ==> at[j] > at[k])
    && (forall i: nat :: |log| - n <= i < |log| && ParseLevel(log[i].level) >= minLevel && i !in at ==>
          0 < limit == |at| && forall k :: 0 <= k < |at| ==> at[k] > i)
  }

  /** Where in the log the filtered entries are. */
  lemma {:induction false} FilteredFrom(log: seq<Entry>, n: nat, minLevel: int) returns (at: seq<nat>)
    requires n <= |log|
    ensures IsAnswer(AtLeast(Newest(log, n), minLevel), at, log, n, minLevel, 0)
  {
    hide AtLeast, Newest, ParseLevel, IsAnswer;
    if n == 0 {
      EmptyAnswer(log, minLevel);
      return [];
    }
    at := FilteredFrom(log, n - 1, minLevel);
    OneOlder(log, n - 1, minLevel);
    var out, e := AtLeast(Newest(log, n - 1), minLevel), log[|log| - n];
    if ParseLevel(e.level) >= minLevel {
      OneMoreAnswer(out, at, log, n, minLevel);
      at := at + [|log| - n];
    } else {
      assert AtLeast(Newest(log, n), minLevel) == out + [] == out;
      SameAnswer(out, at, log, n, minLevel);
    }
  }

  lemma EmptyAnswer(log: seq<Entry>, minLevel: int)
    ensures IsAnswer(AtLeast(Newest(log, 0), minLevel), [], log, 0, minLevel, 0)
  {}

  lemma SameAnswer(out: seq<Entry>, at: seq<nat>, log: seq<Entry>, n: nat, minLevel: int)
    requires 0 < n <= |log| && IsAnswer(out, at, log, n - 1, minLevel, 0)
    requires ParseLevel(log[|log| - n].level) < minLevel
    ensures IsAnswer(out, at, log, n, minLevel, 0)
  {
    hide ParseLevel;
  }

  lemma OneMoreAnswer(out: seq<Entry>, at: seq<nat>, log: seq<Entry>, n: nat, minLevel: int)
    requires 0 < n <= |log| && IsAnswer(out, at, log, n - 1, minLevel, 0)
    requires ParseLevel(log[|log| - n].level) >= minLevel
    ensures IsAnswer(out + [log[|log| - n]], at + [|log| - n], log, n, minLevel, 0)
  {
    hide ParseLevel;
    var more := at + [|log| - n];
    assert more[|at|] == |log| - n;
    forall i: nat | |log| - n <= i < |log| && ParseLevel(log[i].level) >= minLevel ensures i in more {
      if i != |log| - n {
        assert i in at;
      }
    }
  }

  lemma CappedAnswer(out: seq<Entry>, at: seq<nat>, log: seq<Entry>, n: nat, minLevel: int, limit: nat)
    requires IsAnswer(out, at, log, n, minLevel, 0) && 0 < limit < |at|
    ensures IsAnswer(out[..limit], at[..limit], log, n, minLevel, limit)
  {
    hide ParseLevel;
    var some := at[..limit];
    forall i: nat | i in at && i !in some ensures forall k :: 0 <= k < limit ==> some[k] > i {
      var j :| 0 <= j < |at| && at[j] == i;
      assert forall k :: 0 <= k < limit ==> some[k] in some && at[k] == some[k];
    }
  }

  lemma AnswerIs(log: seq<Entry>, n: nat, minLevel: int, limit: int) returns (at: seq<nat>)
    requires n <= |log|
    ensures IsAnswer(Capped(AtLeast(Newest(log, n), minLevel), limit), at, log, n, minLevel, limit)
  {
    at := FilteredFrom(log, n, minLevel);
    hide AtLeast, Newest, ParseLevel;
    if 0 < limit < |at| {
      CappedAnswer(AtLeast(Newest(log, n), minLevel), at, log, n, minLevel, limit);
      at := at[..limit];
    }
  }

  /** Once the cap is reached, nothing older matters. */
  lemma CapReached(log: seq<Entry>, i: nat, n: nat, minLevel: int, limit: int)
    requires i <= n <= |log| && limit > 0 && |AtLeast(Newest(log, i), minLevel)| == limit
    ensures AtLeast(Newest(log, i), minLevel) == Capped(AtLeast(Newest(log, n), minLevel), limit)
  {
    OlderComeLast(log, i, n, minLevel);
  }

  class Ring {
    const entries: array<Entry>
    var next: nat
    var full: bool
    /** Everything ever appended. */
    ghost var log: seq<Entry>

    ghost predicate Valid()
      reads this, entries
    {
      Holds(entries[..], next, full, log)
    }

    /** A size below one is raised to one. */
    constructor (size: int, blank: Entry)
      ensures Valid() && fresh(entries) && log == []
      ensures entries.Length == if size < 1 then 1 else size
    {
      entries := new Entry[if size < 1 then 1 else size](_ => blank);
      next, full, log := 0, false, [];
    }

    method Append(e: Entry)
      requires Valid()
      modifies this, entries
      ensures Valid() && log == old(log) + [e]
    {
      WriteSlot(entries[..], next, full, log, e);
      ghost var slots := entries[..];
      entries[next] := e;
      assert entries[..] == slots[next := e];
      next := (next + 1) % entries.Length;
      if next == 0 {
        full := true;
      }
      log := log + [e];
    }

    /** The buffered entries newest first, filtered by level and capped: what the whole log would give. */
    method Entries(minLevel: int, limit: int) returns (out: seq<Entry>)
      requires Valid()
      ensures out == Capped(AtLeast(Newest(log, Min(entries.Length, |log|)), minLevel), limit)
      ensures exists at :: IsAnswer(out, at, log, Min(entries.Length, |log|), minLevel, limit)
    {
      hide AtLeast, Newest, Holds, Back, Capped, ParseLevel, IsAnswer;
      var count := next;
      if full {
        count := entries.Length;
      }
      NoneYet(entries[..], next, full, log, minLevel);
      ghost var at := AnswerIs(log, count, minLevel, limit);
      out := [];
      var i := 0;
      while i < count
        invariant 0 <= i <= count <= |log|
        invariant out == AtLeast(Newest(log, i), minLevel)
        invariant limit > 0 ==> |out| < limit
      {
        var idx := Back(next, i, entries.Length);
        assert idx < entries.Length && i < |log| && entries[idx] == log[|log| - 1 - i] by {
          StepsBack(entries[..], next, full, log, i);
        }
        OneOlder(log, i, minLevel);
        var e := entries[idx];
        i := i + 1;
        if ParseLevel(e.level) < minLevel {
          continue;
        }
        out := out + [e];
        if limit > 0 && |out| >= limit {
          CapReached(log, i, count, minLevel, limit);
          return;
        }
      }
      BelowCap(out, limit);
    }
  }
}
