/** Go's order on strings, and sorting by it. Characters stand for bytes. */
module Ordering {

  predicate Less(a: string, b: string) {
    b != [] && (a == [] || a[0] < b[0] || (a[0] == b[0] && Less(a[1..], b[1..])))
  }

  /** Less is decided at the first difference; a prefix comes before what it begins. */
  lemma {:induction false} LessIff(a: string, b: string)
    ensures Less(a, b) <==> exists k: nat :: DiffersAt(a, b, k)
  {
    if a != [] && b != [] && a[0] == b[0] {
      LessIff(a[1..], b[1..]);
      if k: nat :| DiffersAt(a[1..], b[1..], k) {
        assert a[..k + 1] == [a[0]] + a[1..][..k] && b[..k + 1] == [b[0]] + b[1..][..k];
        assert DiffersAt(a, b, k + 1);
      }
      if k: nat :| DiffersAt(a, b, k) {
        assert a[..k] == b[..k] && (k > 0 ==> a[..k][1..] == a[1..][..k - 1] && b[..k][1..] == b[1..][..k - 1]);
        assert k > 0 && DiffersAt(a[1..], b[1..], k - 1);
      }
    } else if Less(a, b) {
      assert DiffersAt(a, b, 0);
    } else {
      forall k: nat ensures !DiffersAt(a, b, k) {
        if 0 < k <= |a| && k <= |b| { assert a[..k][0] == a[0] && b[..k][0] == b[0]; }
      }
    }
  }

  /** The strings agree before position k; there a ends or has the smaller byte. */
  predicate DiffersAt(a: string, b: string, k: nat) {
    k <= |a| && k < |b| && a[..k] == b[..k] && (k == |a| || a[k] < b[k])
  }

  lemma {:induction false} LessIrreflexive(a: string)
    ensures !Less(a, a)
  {
    if a != [] { LessIrreflexive(a[1..]); }
  }

  lemma {:induction false} LessTransitive(a: string, b: string, c: string)
    requires Less(a, b) && Less(b, c)
    ensures Less(a, c)
  {
    if a != [] && a[0] == b[0] && b[0] == c[0] { LessTransitive(a[1..], b[1..], c[1..]); }
  }

  lemma {:induction false} LessTotal(a: string, b: string)
    ensures a == b || Less(a, b) || Less(b, a)
  {
    if a != [] && b != [] {
      LessTotal(a[1..], b[1..]);
      assert a == [a[0]] + a[1..] && b == [b[0]] + b[1..];
    }
  }

  ghost predicate Sorted(keys: seq<string>) {
    forall i, j :: 0 <= i < j < |keys| ==> Less(keys[i], keys[j])
  }

  /** The first key is the least, and occurs only once. */
  lemma SortedHead(s: seq<string>, k: string)
    requires Sorted(s) && s != []
    ensures k in s <==> k == s[0] || k in s[1..]
    ensures k in s[1..] ==> Less(s[0], k) && k != s[0]
  {
    LessIrreflexive(s[0]);
    assert s == [s[0]] + s[1..];
    if k in s[1..] {
      var i :| 0 <= i < |s| - 1 && s[1..][i] == k;
      assert s[i + 1] == k;
    }
  }

  lemma SameHead(s: seq<string>, t: seq<string>)
    requires Sorted(s) && Sorted(t) && s != [] && t != [] && s[0] in t && t[0] in s
    ensures s[0] == t[0]
  {
    SortedHead(s, t[0]);
    SortedHead(t, s[0]);
    if s[0] != t[0] {
      LessTransitive(s[0], t[0], s[0]);
      LessIrreflexive(s[0]);
    }
  }

  /** A strictly sorted list is determined by its elements. */
  lemma {:induction false} SortedUnique(s: seq<string>, t: seq<string>)
    requires Sorted(s) && Sorted(t) && forall k :: k in s <==> k in t
    ensures s == t
  {
    assert s != [] ==> s[0] in s;
    assert t != [] ==> t[0] in t;
    if s != [] && t != [] {
      SameHead(s, t);
      forall k ensures k in s[1..] <==> k in t[1..] {
        SortedHead(s, k);
        SortedHead(t, k);
      }
      SortedUnique(s[1..], t[1..]);
      assert s == [s[0]] + s[1..] && t == [t[0]] + t[1..];
    }
  }

  /** Where a new key belongs in a strictly sorted list. */
  function Position(keys: seq<string>, key: string): (p: nat)
    ensures p <= |keys|
    ensures p < |keys| ==> !Less(keys[p], key)
    ensures forall i :: 0 <= i < p ==> Less(keys[i], key)
  {
    if keys == [] || !Less(keys[0], key) then 0 else 1 + Position(keys[1..], key)
  }

  lemma InsertKeepsSorted(keys: seq<string>, key: string)
    requires Sorted(keys) && key !in keys
    ensures var p := Position(keys, key); Sorted(keys[..p] + [key] + keys[p..])
  {
    var p := Position(keys, key);
    forall i | p <= i < |keys| ensures Less(key, keys[i]) {
      LessTotal(key, keys[p]);
      if p < i { LessTransitive(key, keys[p], keys[i]); }
    }
  }
}
