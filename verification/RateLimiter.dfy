/**
 The token bucket guarding logins. Reals stand for float64; instants and the
 refill time are in seconds.
 */
module RateLimiter {
  import opened Basics

  /** The specification keeps `last` in refill periods, the class in seconds. */
  datatype Bucket = Bucket(tokens: real, last: real)

  type Buckets = map<string, Bucket>

  /** An instant in refill periods: the time to earn one token is one. */
  function Ticks(refill: real, seconds: real): real
    requires refill > 0.0
  {
    seconds / refill
  }

  lemma ElapsedTicks(refill: real, from: real, to: real)
    requires refill > 0.0
    ensures (to - from) / refill == Ticks(refill, to) - Ticks(refill, from)
    ensures from <= to ==> Ticks(refill, from) <= Ticks(refill, to)
  {}

  /** The tokens in a bucket once it has been topped up. */
  function Level(burst: int, b: Option<Bucket>, now: real): real {
    match b
    case None => burst as real
    case Some(b) =>
      var t := b.tokens + (now - b.last);
      if t > burst as real then burst as real else t
  }

  function Verdict(burst: int, b: Option<Bucket>, now: real): bool {
    Level(burst, b, now) >= 1.0
  }

  function Spend(burst: int, b: Option<Bucket>, now: real): Bucket {
    Bucket(if Verdict(burst, b, now) then Level(burst, b, now) - 1.0 else Level(burst, b, now), now)
  }

  function Get(bs: Buckets, key: string): Option<Bucket> {
    if key in bs then Some(bs[key]) else None
  }

  class RateLimiter {
    const burst: real
    const refill: real
    const limit: int
    /** Here `last` is in seconds. */
    var buckets: Buckets

    ghost predicate Valid() {
      refill > 0.0 && burst == limit as real
    }

    /** The buckets with their times in refill periods. */
    function Contents(): Buckets
      requires Valid()
      reads this
    {
      map k | k in buckets :: Bucket(buckets[k].tokens, Ticks(refill, buckets[k].last))
    }

    constructor (burst: int, refill: real)
      requires refill > 0.0
      ensures Valid() && limit == burst && this.refill == refill && Contents() == map[]
    {
      this.burst, this.limit, this.refill := burst as real, burst, refill;
      buckets := map[];
    }

    /** Whether the client may proceed at time `now`, in seconds. */
    method Allow(key: string, now: real) returns (ok: bool)
      requires Valid()
      modifies this
      ensures ok <==> Verdict(limit, Get(old(Contents()), key), Ticks(refill, now))
      ensures Contents() == old(Contents())[key := Spend(limit, Get(old(Contents()), key), Ticks(refill, now))]
    {
      var b := if key in buckets then buckets[key] else Bucket(burst, now);
      ElapsedTicks(refill, b.last, now);
      var tokens := b.tokens + (now - b.last) / refill;
      if tokens > burst {
        tokens := burst;
      }
      if tokens < 1.0 {
        buckets := buckets[key := Bucket(tokens, now)];
        return false;
      }
      buckets := buckets[key := Bucket(tokens - 1.0, now)];
      return true;
    }
  }

  // ------------------------------------------------------------ one client

  ghost predicate Ordered(times: seq<real>) {
    forall i, j :: 0 <= i < j < |times| ==> times[i] <= times[j]
  }

  /** The bucket of a client after its attempts at the given times. */
  function After(burst: int, times: seq<real>): Option<Bucket> {
    if times == [] then None
    else Some(Spend(burst, After(burst, times[..|times| - 1]), times[|times| - 1]))
  }

  /** The times of the attempts that were granted. */
  function Grants(burst: int, times: seq<real>): seq<real> {
    if times == [] then []
    else
      var init, t := times[..|times| - 1], times[|times| - 1];
      if Verdict(burst, After(burst, init), t) then Grants(burst, init) + [t] else Grants(burst, init)
  }

  /** One more attempt. */
  lemma OneMore(burst: int, times: seq<real>, t: real)
    ensures After(burst, times + [t]) == Some(Spend(burst, After(burst, times), t))
    ensures Grants(burst, times + [t])
         == if Verdict(burst, After(burst, times), t) then Grants(burst, times) + [t] else Grants(burst, times)
  {}

  /**
   The sliding-window rule, without any bucket: x more grants at time t fit if
   every window that starts at a grant and ends at t stays within burst plus
   what the window's length earns.
   */
  ghost predicate Fits(burst: int, grants: seq<real>, x: real, t: real) {
    && x <= burst as real
    && forall k :: 0 <= k < |grants| ==>
         (|grants| - k) as real + x <= burst as real + t - grants[k]
  }

  /** The bucket holds at least x tokens exactly when x more grants fit. */
  lemma {:induction false} BucketIsWindow(burst: int, times: seq<real>, x: real, t: real)
    requires forall i :: 0 <= i < |times| ==> times[i] <= t
    requires Ordered(times)
    ensures Level(burst, After(burst, times), t) >= x <==> Fits(burst, Grants(burst, times), x, t)
  {
    if times != [] {
      var init, s := times[..|times| - 1], times[|times| - 1];
      var g := Grants(burst, init);
      if Verdict(burst, After(burst, init), s) {
        BucketIsWindow(burst, init, x + 1.0 - (t - s), s);
        if x <= burst as real { GrantedWindow(burst, g, s, x, t); }
      } else {
        BucketIsWindow(burst, init, x - (t - s), s);
        assert x <= burst as real ==> (Fits(burst, g, x, t) <==> Fits(burst, g, x - (t - s), s));
      }
    }
  }

  /** One more grant in the history shifts every window by one. */
  lemma GrantedWindow(burst: int, g: seq<real>, s: real, x: real, t: real)
    requires s <= t && x <= burst as real
    ensures Fits(burst, g + [s], x, t) <==> Fits(burst, g, x + 1.0 - (t - s), s)
  {
    var h := g + [s];
    if Fits(burst, g, x + 1.0 - (t - s), s) {
      forall k | 0 <= k < |h| ensures (|h| - k) as real + x <= burst as real + t - h[k] {
        if k < |g| { assert h[k] == g[k]; }
      }
    }
    if Fits(burst, h, x, t) {
      assert h[|g|] == s;
      forall k | 0 <= k < |g|
        ensures (|g| - k) as real + (x + 1.0 - (t - s)) <= burst as real + s - g[k]
      {
        assert h[k] == g[k];
      }
    }
  }

  /** An attempt is granted exactly when one more grant fits every window. */
  lemma GrantedIffFits(burst: int, times: seq<real>, t: real)
    requires Ordered(times + [t])
    ensures Verdict(burst, After(burst, times), t) <==> Fits(burst, Grants(burst, times), 1.0, t)
  {
    assert times == (times + [t])[..|times|];
    forall i | 0 <= i < |times| ensures times[i] <= t { assert (times + [t])[i] <= (times + [t])[|times|]; }
    forall i, j | 0 <= i < j < |times| ensures times[i] <= times[j] {
      assert (times + [t])[i] <= (times + [t])[j];
    }
    BucketIsWindow(burst, times, 1.0, t);
  }

  /** Between any two grants of a run, both counted, at most burst plus elapsed / refill. */
  lemma {:induction false} WindowBound(burst: int, times: seq<real>, i: nat, j: nat)
    requires Ordered(times) && i <= j < |Grants(burst, times)|
    ensures var g := Grants(burst, times);
      (j - i + 1) as real <= burst as real + g[j] - g[i]
  {
    var init, t := times[..|times| - 1], times[|times| - 1];
    var g := Grants(burst, init);
    if j < |g| {
      WindowBound(burst, init, i, j);
    } else {
      assert init + [t] == times;
      GrantedIffFits(burst, init, t);
      assert i < |g| ==> (|g| - i) as real + 1.0 <= burst as real + t - g[i];
    }
  }

  /** The bucket of a limiter with room for anybody holds between zero and burst tokens. */
  lemma {:induction false} TokensInRange(burst: int, times: seq<real>)
    requires burst >= 0 && Ordered(times)
    ensures After(burst, times).Some? ==> 0.0 <= After(burst, times).value.tokens <= burst as real
  {
    if times != [] {
      var init, t := times[..|times| - 1], times[|times| - 1];
      TokensInRange(burst, init);
      if init != [] {
        assert After(burst, init).value.last == init[|init| - 1] == times[|init| - 1];
      }
    }
  }

  // --------------------------------------------------- denied attempts

  lemma OrderedParts(a: seq<real>, d: real, b: seq<real>)
    requires Ordered(a + [d] + b)
    ensures Ordered(a) && Ordered(a + b)
  {
    var all := a + [d] + b;
    forall i, j | 0 <= i < j < |a + b| ensures (a + b)[i] <= (a + b)[j] {
      var i', j' := if i < |a| then i else i + 1, if j < |a| then j else j + 1;
      assert (a + b)[i] == all[i'] && (a + b)[j] == all[j'];
    }
    forall i, j | 0 <= i < j < |a| ensures a[i] <= a[j] {
      assert a[i] == all[i] && a[j] == all[j];
    }
  }

  /** Two histories with the same grants treat the next attempt alike. */
  lemma SameVerdict(burst: int, a: seq<real>, b: seq<real>, t: real)
    requires Ordered(a + [t]) && Ordered(b + [t])
    requires Grants(burst, a) == Grants(burst, b)
    ensures Verdict(burst, After(burst, a), t) == Verdict(burst, After(burst, b), t)
    ensures Grants(burst, a + [t]) == Grants(burst, b + [t])
  {
    GrantedIffFits(burst, a, t);
    GrantedIffFits(burst, b, t);
    OneMore(burst, a, t);
    OneMore(burst, b, t);
  }

  /** Striking a denied attempt from a history leaves its grants as they were. */
  lemma {:induction false} DeniedLeavesGrants(burst: int, before: seq<real>, denied: real, rest: seq<real>)
    requires Ordered(before + [denied] + rest) && !Verdict(burst, After(burst, before), denied)
    ensures Grants(burst, before + [denied] + rest) == Grants(burst, before + rest)
    decreases |rest|
  {
    OneMore(burst, before, denied);
    if rest == [] {
      assert before + [denied] + rest == before + [denied] && before + rest == before;
    } else {
      var init, t := rest[..|rest| - 1], rest[|rest| - 1];
      OrderedParts(before, denied, rest);
      assert before + [denied] + rest == before + [denied] + init + [t];
      assert before + rest == before + init + [t];
      OrderedParts(before + [denied] + init, t, []);
      DeniedLeavesGrants(burst, before, denied, init);
      SameVerdict(burst, before + [denied] + init, before + init, t);
    }
  }

  /** A denied attempt has no influence on any later verdict, whatever the burst. */
  lemma DeniedIsTransparent(burst: int, before: seq<real>, denied: real, rest: seq<real>, t: real)
    requires Ordered(before + [denied] + rest + [t]) && !Verdict(burst, After(burst, before), denied)
    ensures Verdict(burst, After(burst, before + [denied] + rest), t) == Verdict(burst, After(burst, before + rest), t)
  {
    OrderedParts(before + [denied] + rest, t, []);
    assert before + [denied] + rest + [t] == before + [denied] + (rest + [t]);
    OrderedParts(before, denied, rest + [t]);
    assert before + (rest + [t]) == before + rest + [t];
    DeniedLeavesGrants(burst, before, denied, rest);
    SameVerdict(burst, before + [denied] + rest, before + rest, t);
  }

  // ------------------------------------------------------------ all clients

  datatype Attempt = Attempt(key: string, at: real)

  /** The limiter after attempts by anybody, as the class updates it. */
  function AfterAll(burst: int, trace: seq<Attempt>): Buckets
  {
    if trace == [] then map[]
    else
      var bs, a := AfterAll(burst, trace[..|trace| - 1]), trace[|trace| - 1];
      bs[a.key := Spend(burst, Get(bs, a.key), a.at)]
  }

  function TimesOf(trace: seq<Attempt>, key: string): seq<real> {
    if trace == [] then []
    else
      var a := trace[|trace| - 1];
      TimesOf(trace[..|trace| - 1], key) + (if a.key == key then [a.at] else [])
  }

  /** A client's bucket, hence its next verdict, depends on that client's attempts alone. */
  lemma {:induction false} ClientsAreIndependent(burst: int, trace: seq<Attempt>, key: string)
    ensures Get(AfterAll(burst, trace), key) == After(burst, TimesOf(trace, key))
  {
    if trace != [] {
      var init, a := trace[..|trace| - 1], trace[|trace| - 1];
      ClientsAreIndependent(burst, init, key);
      OneMore(burst, TimesOf(init, key), a.at);
      assert a.key == key ==> TimesOf(trace, key) == TimesOf(init, key) + [a.at];
      assert a.key != key ==> TimesOf(trace, key) == TimesOf(init, key);
    }
  }

  /**
   The promise on the login endpoint, in seconds: from the i-th to the j-th
   granted attempt of a client, both counted, at most burst plus elapsed / refill.
   */
  lemma GrantsInSeconds(burst: int, refill: real, trace: seq<Attempt>, seconds: seq<real>, key: string, i: nat, j: nat)
    requires refill > 0.0 && |seconds| == |TimesOf(trace, key)| && Ordered(seconds)
    requires forall k :: 0 <= k < |seconds| ==> TimesOf(trace, key)[k] == Ticks(refill, seconds[k])
    requires i <= j < |Grants(burst, TimesOf(trace, key))|
    ensures exists a: nat, b: nat ::
      && a <= b < |seconds|
      && Grants(burst, TimesOf(trace, key))[i] == Ticks(refill, seconds[a])
      && Grants(burst, TimesOf(trace, key))[j] == Ticks(refill, seconds[b])
      && (j - i + 1) as real <= burst as real + (seconds[b] - seconds[a]) / refill
  {
    var times := TimesOf(trace, key);
    forall x, y | 0 <= x < y < |times| ensures times[x] <= times[y] {
      ElapsedTicks(refill, seconds[x], seconds[y]);
    }
    var a, b := GrantIndices(burst, times, i, j);
    WindowBound(burst, times, i, j);
    ElapsedTicks(refill, seconds[a], seconds[b]);
  }

  /** Where in the list of attempts two grants are found. */
  lemma {:induction false} GrantIndices(burst: int, times: seq<real>, i: nat, j: nat) returns (a: nat, b: nat)
    requires i <= j < |Grants(burst, times)|
    ensures a <= b < |times| && Grants(burst, times)[i] == times[a] && Grants(burst, times)[j] == times[b]
    ensures i < j ==> a < b
  {
    var init, t := times[..|times| - 1], times[|times| - 1];
    var g := Grants(burst, init);
    if j < |g| {
      a, b := GrantIndices(burst, init, i, j);
    } else if i < |g| {
      a, b := GrantIndices(burst, init, i, i);
      b := |times| - 1;
    } else {
      a, b := |times| - 1, |times| - 1;
    }
  }
}
