/**
 Which provider an image belongs to. Glob matching and the lookup of a file in
 the image are parameters; a malformed pattern matches nothing.
 */
module IsoMatch {
  import opened Basics
  import opened Ordering

  datatype Manifest = Manifest(name: string, volumeIDPatterns: seq<string>, files: seq<string>)

  /** The image, as far as detection looks at it. */
  datatype Image = Image(volumeID: string, fileExists: string -> bool, glob: (string, string) -> Option<bool>)

  // ----------------------------------------------------------- specification

  predicate MatchesVolume(img: Image, m: Manifest) {
    exists p :: p in m.volumeIDPatterns && img.glob(p, img.volumeID) == Some(true)
  }

  predicate MatchesFiles(img: Image, m: Manifest) {
    m.files != [] && forall f :: f in m.files ==> img.fileExists(f)
  }

  /** The first of a set by name. */
  ghost predicate IsFirst(m: Manifest, ms: set<Manifest>) {
    m in ms && forall o :: o in ms ==> o == m || Less(m.name, o.name)
  }

  /** The one with most files, the first by name among equals. */
  ghost predicate IsMostSpecific(m: Manifest, ms: set<Manifest>) {
    m in ms && forall o :: o in ms ==>
      |o.files| < |m.files| || (|o.files| == |m.files| && (o == m || Less(m.name, o.name)))
  }

  ghost function Candidates(img: Image, ms: set<Manifest>): set<Manifest> {
    set m | m in ms && MatchesVolume(img, m)
  }

  ghost function Present(img: Image, ms: set<Manifest>): set<Manifest> {
    set m | m in ms && MatchesFiles(img, m)
  }

  /** The rule: volume IDs first, files to break a tie, files alone as the last resort. */
  ghost predicate IsMatch(img: Image, ms: set<Manifest>, r: Option<Manifest>) {
    var cs := Candidates(img, ms);
    if cs == {} then
      if Present(img, ms) == {} then r == None else r.Some? && IsFirst(r.value, Present(img, ms))
    else if Present(img, cs) == {} || |cs| == 1 then r.Some? && IsFirst(r.value, cs)
    else r.Some? && IsMostSpecific(r.value, Present(img, cs))
  }

  /** The rule leaves no choice: the answer is a function of the set of manifests and the image. */
  lemma MatchIsUnique(img: Image, ms: set<Manifest>, r1: Option<Manifest>, r2: Option<Manifest>)
    requires IsMatch(img, ms, r1) && IsMatch(img, ms, r2)
    ensures r1 == r2
  {
    if r1.Some? && r2.Some? {
      LessIrreflexive(r1.value.name);
      if Less(r1.value.name, r2.value.name) && Less(r2.value.name, r1.value.name) {
        LessTransitive(r1.value.name, r2.value.name, r1.value.name);
      }
    }
  }

  /** Nothing is found only when nothing qualifies. */
  lemma NoMatchIff(img: Image, ms: set<Manifest>, r: Option<Manifest>)
    requires IsMatch(img, ms, r)
    ensures r == None <==> forall m :: m in ms ==>
      && (forall p :: p in m.volumeIDPatterns ==> img.glob(p, img.volumeID) != Some(true))
      && (m.files == [] || exists f :: f in m.files && !img.fileExists(f))
  {
    forall m | m in ms ensures (m in Candidates(img, ms) <==> MatchesVolume(img, m))
                            && (m in Present(img, ms) <==> MatchesFiles(img, m)) {}
  }

  /**
   What is found. Any manifest whose pattern fits goes before all that only have
   their files in the image; among several such, no manifest with all its files
   in the image loses to one without, or to one with a shorter list.
   */
  lemma FoundMeans(img: Image, ms: set<Manifest>, r: Manifest, o: Manifest, p: string)
    requires IsMatch(img, ms, Some(r)) && o in ms && o != r
    requires p in o.volumeIDPatterns && img.glob(p, img.volumeID) == Some(true)
    ensures r in ms && exists q :: q in r.volumeIDPatterns && img.glob(q, img.volumeID) == Some(true)
    ensures o.files != [] && (forall f :: f in o.files ==> img.fileExists(f)) ==>
      && (forall f :: f in r.files ==> img.fileExists(f))
      && (|r.files| > |o.files| || (|r.files| == |o.files| && Less(r.name, o.name)))
  {
    var cs := Candidates(img, ms);
    assert o in cs;
    if MatchesFiles(img, o) {
      assert o in Present(img, cs);
      assert r in cs - {o} && |cs| == |cs - {o}| + 1;
    }
  }

  // --------------------------------------------------------------- registry

  function Names(ms: seq<Manifest>): seq<string> {
    seq(|ms|, i requires 0 <= i < |ms| => ms[i].name)
  }

  ghost predicate SortedByName(ms: seq<Manifest>) { Sorted(Names(ms)) }

  ghost function Elements(ms: seq<Manifest>): set<Manifest> { set m | m in ms }

  lemma NamesOfInserted(ms: seq<Manifest>, p: nat, m: Manifest)
    requires p <= |ms|
    ensures Names(ms[..p] + [m] + ms[p..]) == Names(ms)[..p] + [m.name] + Names(ms)[p..]
    ensures forall x :: x in ms[..p] + [m] + ms[p..] <==> x in ms || x == m
  {
    assert ms == ms[..p] + ms[p..];
  }

  lemma NameOfElement(ms: seq<Manifest>, name: string)
    requires name in Names(ms)
    ensures exists m :: m in ms && m.name == name
  {
    var i :| 0 <= i < |ms| && Names(ms)[i] == name;
    assert ms[i] in ms && ms[i].name == name;
  }

  class Registry {
    var providers: map<string, Manifest>

    /** Providers are filed under their own name. */
    ghost predicate Valid()
      reads this
    {
      forall n :: n in providers ==> providers[n].name == n
    }

    /** Every manifest, sorted by name. */
    method All() returns (out: seq<Manifest>)
      requires Valid()
      ensures SortedByName(out) && Elements(out) == providers.Values
    {
      out := [];
      var rest := providers.Keys;
      while rest != {}
        invariant rest <= providers.Keys && SortedByName(out)
        invariant forall m :: m in out <==> m.name in providers && m.name !in rest && m == providers[m.name]
        decreases rest
      {
        var n :| n in rest;
        rest := rest - {n};
        hide Sorted, Names;
        var p := Position(Names(out), n);
        assert n !in Names(out) by {
          if n in Names(out) { NameOfElement(out, n); }
        }
        InsertKeepsSorted(Names(out), n);
        NamesOfInserted(out, p, providers[n]);
        out := out[..p] + [providers[n]] + out[p..];
      }
      forall m ensures m in Elements(out) <==> m in providers.Values {
        if m in providers.Values {
          var n :| n in providers && providers[n] == m;
          assert m.name == n;
        }
      }
    }
  }

  // ------------------------------------------------------------------ loops

  lemma SortedAt(ms: seq<Manifest>, i: nat, j: nat)
    requires SortedByName(ms) && i < j < |ms|
    ensures Less(ms[i].name, ms[j].name)
  {
    assert Less(Names(ms)[i], Names(ms)[j]);
  }

  method AllPresent(img: Image, files: seq<string>) returns (all: bool)
    ensures all <==> forall f :: f in files ==> img.fileExists(f)
  {
    all := true;
    for k := 0 to |files|
      invariant all && forall i :: 0 <= i < k ==> img.fileExists(files[i])
    {
      if !img.fileExists(files[k]) {
        all := false;
        break;
      }
    }
  }

  /** The candidate with the longest file list that is there in full, or none. */
  method MostSpecificFileMatch(img: Image, candidates: seq<Manifest>) returns (best: Option<Manifest>)
    requires SortedByName(candidates)
    ensures best == None <==> Present(img, Elements(candidates)) == {}
    ensures best.Some? ==> IsMostSpecific(best.value, Present(img, Elements(candidates)))
  {
    best := None;
    for k := 0 to |candidates|
      invariant best == None ==> forall i :: 0 <= i < k ==> !MatchesFiles(img, candidates[i])
      invariant best.Some? ==> exists b :: 0 <= b < k && IsBestOf(img, candidates, k, b) && candidates[b] == best.value
    {
      var c := candidates[k];
      if c.files == [] {
        continue;
      }
      var all := AllPresent(img, c.files);
      ghost var b :| best.Some? ==> 0 <= b < k && IsBestOf(img, candidates, k, b) && candidates[b] == best.value;
      if all && (best == None || |c.files| > |best.value.files|) {
        best := Some(c);
        assert IsBestOf(img, candidates, k + 1, k);
      } else if best.Some? {
        assert IsBestOf(img, candidates, k + 1, b);
      }
    }
    if best.Some? {
      ghost var b :| 0 <= b < |candidates| && IsBestOf(img, candidates, |candidates|, b) && candidates[b] == best.value;
      BestIsMostSpecific(img, candidates, b);
    }
  }

  /** Among the first k candidates, b has most files and comes first with that many. */
  ghost predicate IsBestOf(img: Image, cs: seq<Manifest>, k: nat, b: nat) {
    && b < k <= |cs| && MatchesFiles(img, cs[b])
    && forall i :: 0 <= i < k && MatchesFiles(img, cs[i]) ==>
         |cs[i].files| < |cs[b].files| || (|cs[i].files| == |cs[b].files| && b <= i)
  }

  lemma BestIsMostSpecific(img: Image, cs: seq<Manifest>, b: nat)
    requires SortedByName(cs) && IsBestOf(img, cs, |cs|, b)
    ensures IsMostSpecific(cs[b], Present(img, Elements(cs)))
  {
    forall o | o in Present(img, Elements(cs))
      ensures |o.files| < |cs[b].files| || (|o.files| == |cs[b].files| && (o == cs[b] || Less(cs[b].name, o.name)))
    {
      var i :| 0 <= i < |cs| && cs[i] == o;
      if b < i { SortedAt(cs, b, i); }
    }
  }

  method HasMatchingPattern(img: Image, m: Manifest) returns (found: bool)
    ensures found <==> MatchesVolume(img, m)
  {
    for k := 0 to |m.volumeIDPatterns|
      invariant forall i :: 0 <= i < k ==> img.glob(m.volumeIDPatterns[i], img.volumeID) != Some(true)
    {
      if img.glob(m.volumeIDPatterns[k], img.volumeID) == Some(true) {
        return true;
      }
    }
    return false;
  }

  /** The manifests whose volume-ID patterns fit, in the order given. */
  method VolumeCandidates(img: Image, all: seq<Manifest>) returns (candidates: seq<Manifest>)
    requires SortedByName(all)
    ensures SortedByName(candidates) && Elements(candidates) == Candidates(img, Elements(all))
    ensures |candidates| == |Elements(candidates)|
  {
    candidates := [];
    for k := 0 to |all|
      invariant SortedByName(candidates)
      invariant forall m :: m in candidates <==> m in all[..k] && MatchesVolume(img, m)
    {
      assert all[..k + 1] == all[..k] + [all[k]];
      var found := HasMatchingPattern(img, all[k]);
      if found {
        AppendSorted(candidates, all, k);
        candidates := candidates + [all[k]];
      }
    }
    assert all[..|all|] == all;
    SizeOfSorted(candidates);
  }

  lemma AppendSorted(some: seq<Manifest>, all: seq<Manifest>, k: nat)
    requires SortedByName(some) && SortedByName(all) && k < |all|
    requires forall m :: m in some ==> m in all[..k]
    ensures SortedByName(some + [all[k]])
  {
    var out := some + [all[k]];
    forall i, j | 0 <= i < j < |out| ensures Less(Names(out)[i], Names(out)[j]) {
      if j < |some| {
        SortedAt(some, i, j);
      } else {
        assert some[i] in all[..k];
        var x :| 0 <= x < k && all[x] == some[i];
        SortedAt(all, x, k);
      }
    }
  }

  lemma {:induction false} SizeOfSorted(ms: seq<Manifest>)
    requires SortedByName(ms)
    ensures |Elements(ms)| == |ms|
  {
    if ms != [] {
      var init, last := ms[..|ms| - 1], ms[|ms| - 1];
      forall i, j | 0 <= i < j < |init| ensures Less(Names(init)[i], Names(init)[j]) { SortedAt(ms, i, j); }
      SizeOfSorted(init);
      assert last !in init by {
        if last in init {
          var i :| 0 <= i < |init| && init[i] == last;
          SortedAt(ms, i, |ms| - 1);
          LessIrreflexive(last.name);
        }
      }
      assert Elements(ms) == Elements(init) + {last};
    }
  }

  lemma FirstOfSorted(ms: seq<Manifest>)
    requires SortedByName(ms) && ms != []
    ensures IsFirst(ms[0], Elements(ms))
  {
    forall o | o in Elements(ms) ensures o == ms[0] || Less(ms[0].name, o.name) {
      var i :| 0 <= i < |ms| && ms[i] == o;
      if i > 0 { SortedAt(ms, 0, i); }
    }
  }

  /** The provider whose detection rules fit the image. */
  method Match(registry: Registry, img: Image) returns (r: Option<Manifest>)
    requires registry.Valid()
    ensures IsMatch(img, registry.providers.Values, r)
  {
    var all := registry.All();
    var candidates := VolumeCandidates(img, all);
    if |candidates| > 0 { FirstOfSorted(candidates); }
    if |candidates| == 1 {
      return Some(candidates[0]);
    }
    if |candidates| > 1 {
      var best := MostSpecificFileMatch(img, candidates);
      if best != None {
        return best;
      }
      return Some(candidates[0]);
    }
    for k := 0 to |all|
      invariant forall i :: 0 <= i < k ==> !MatchesFiles(img, all[i])
    {
      var files := all[k].files;
      if files == [] {
        continue;
      }
      var found := AllPresent(img, files);
      if found {
        FirstPresent(img, all, k);
        return Some(all[k]);
      }
    }
    return None;
  }

  lemma FirstPresent(img: Image, all: seq<Manifest>, k: nat)
    requires SortedByName(all) && k < |all| && MatchesFiles(img, all[k])
    requires forall i :: 0 <= i < k ==> !MatchesFiles(img, all[i])
    ensures IsFirst(all[k], Present(img, Elements(all)))
  {
    forall o | o in Present(img, Elements(all)) ensures o == all[k] || Less(all[k].name, o.name) {
      var i :| 0 <= i < |all| && all[i] == o;
      if k < i { SortedAt(all, k, i); }
    }
  }
}
