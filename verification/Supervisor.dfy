/**
 The restart loop of the service manager. A script lists what the environment
 does: how long each run lasts and how it ends. Durations are nanoseconds.
 */
module Supervisor {

  const SECOND: nat := 1_000_000_000
  const MINUTE: nat := 60 * SECOND
  const INITIAL_BACKOFF: nat := SECOND
  const MAX_BACKOFF: nat := 30 * SECOND

  datatype Exit = Clean | Canceled | Crash

  /**
   One run of the service. `stopping` and `stoppedInPause`: the context is done
   after the run, or while waiting. The timer fires `late` after the backoff.
   */
  datatype Episode = Episode(run: nat, exit: Exit, stopping: bool, stoppedInPause: bool, late: nat)

  predicate Restarts(e: Episode) {
    !e.stopping && e.exit == Crash && !e.stoppedInPause
  }

  function Min(a: nat, b: nat): nat { if a < b then a else b }

  function Pow2(n: nat): nat { if n == 0 then 1 else 2 * Pow2(n - 1) }

  // ----------------------------------------------------------- specification

  /** How many rapid crashes precede the last episode since the start or the last long run. */
  function Streak(es: seq<Episode>): nat
    requires es != []
  {
    if es[|es| - 1].run > MINUTE || |es| == 1 then 0 else 1 + Streak(es[..|es| - 1])
  }

  /** The pause after the last episode: 1, 2, 4, 8, 16, then 30 seconds. */
  function Pause(es: seq<Episode>): nat
    requires es != []
  {
    Min(Pow2(Streak(es)) * 1_000_000_000, MAX_BACKOFF)
  }

  /** The instant of the last of |es| restarts, counted from the first start. */
  function Elapsed(es: seq<Episode>): nat {
    if es == [] then 0
    else
      var e := es[|es| - 1];
      Elapsed(es[..|es| - 1]) + e.run + Pause(es) + e.late
  }

  /** The episodes that end in a restart, before the first that does not. */
  function Restarted(script: seq<Episode>): seq<Episode> {
    if script == [] || !Restarts(script[0]) then [] else [script[0]] + Restarted(script[1..])
  }

  // -------------------------------------------------------------- properties

  lemma {:induction false} PauseDoubles(es: seq<Episode>, e: Episode)
    requires es != []
    ensures Pause(es + [e]) == if e.run > MINUTE then INITIAL_BACKOFF else Min(2 * Pause(es), MAX_BACKOFF)
  {}

  lemma {:induction false} PauseBounds(es: seq<Episode>)
    requires es != []
    ensures INITIAL_BACKOFF <= Pause(es) <= MAX_BACKOFF
    ensures Pause(es) in {SECOND, 2 * SECOND, 4 * SECOND, 8 * SECOND, 16 * SECOND, 30 * SECOND}
  {
    var init := es[..|es| - 1];
    if init != [] {
      PauseBounds(init);
      PauseDoubles(init, es[|es| - 1]);
      assert init + [es[|es| - 1]] == es;
    }
  }

  /** Time that must have been saved up while the next pause is still short of its cap. */
  function Potential(pause: nat): int {
    if pause <= SECOND then 214 * SECOND
    else if pause <= 2 * SECOND then 133 * SECOND
    else if pause <= 4 * SECOND then 62 * SECOND
    else if pause <= 8 * SECOND then 11 * SECOND
    else 0
  }

  lemma {:induction false} RestartsCostTime(es: seq<Episode>)
    requires es != []
    ensures 5 * Elapsed(es) + 300 * SECOND - 91 * |es| * SECOND >= Potential(Pause(es))
  {
    var init, e := es[..|es| - 1], es[|es| - 1];
    PauseBounds(es);
    if init != [] {
      RestartsCostTime(init);
      PauseBounds(init);
      assert init + [e] == es;
      PauseDoubles(init, e);
    }
  }

  /** For every pattern of crashes: N restarts take at least (91 N - 300) / 5 seconds. */
  lemma RestartRate(es: seq<Episode>)
    ensures 91 * |es| * SECOND <= 5 * Elapsed(es) + 300 * SECOND
  {
    if es != [] { RestartsCostTime(es); }
  }

  lemma {:induction false} ElapsedGrows(es: seq<Episode>, k: nat)
    requires k <= |es|
    ensures Elapsed(es[..k]) <= Elapsed(es)
  {
    if k == |es| {
      assert es[..k] == es;
    } else {
      ElapsedGrows(es[..|es| - 1], k);
      assert es[..|es| - 1][..k] == es[..k];
    }
  }

  /** How many of the restarts happen within the first t nanoseconds. */
  function Within(es: seq<Episode>, t: nat): nat {
    if es == [] then 0 else Within(es[..|es| - 1], t) + (if Elapsed(es) <= t then 1 else 0)
  }

  lemma {:induction false} WithinIsPrefix(es: seq<Episode>, t: nat)
    ensures Within(es, t) <= |es| && Elapsed(es[..Within(es, t)]) <= t
    ensures Within(es, t) < |es| ==> Elapsed(es[..Within(es, t) + 1]) > t
  {
    if es != [] {
      var init := es[..|es| - 1];
      hide Elapsed;
      var n := Within(init, t);
      WithinIsPrefix(init, t);
      if Elapsed(es) <= t {
        ElapsedGrows(es, |init|);
        if n < |init| { ElapsedGrows(init, n + 1); }
        assert es[..|es|] == es;
      } else {
        assert es[..n] == init[..n];
        if n < |init| { assert es[..n + 1] == init[..n + 1]; } else { assert es[..n + 1] == es; }
      }
    }
  }

  /** At most (5 T + 300) / 91 restarts in the first T seconds, whatever the service does. */
  lemma RestartsWithin(es: seq<Episode>, t: nat)
    ensures 91 * Within(es, t) * SECOND <= 5 * t + 300 * SECOND
  {
    WithinIsPrefix(es, t);
    RestartRate(es[..Within(es, t)]);
  }

  // --------------------------------------------------------------- tightness

  const QUICK := Episode(0, Crash, false, false, 0)
  const LONG := Episode(MINUTE + 1, Crash, false, false, 0)

  /** A run just over a minute, then four quick crashes. */
  function Cycle(es: seq<Episode>): seq<Episode> {
    es + [LONG] + [QUICK] + [QUICK] + [QUICK] + [QUICK]
  }

  function Cycles(es: seq<Episode>, n: nat): seq<Episode> {
    if n == 0 then es else Cycle(Cycles(es, n - 1))
  }

  /** Five quick crashes, then any number of cycles. */
  function WorstCase(n: nat): seq<Episode> {
    Cycles([QUICK] + [QUICK] + [QUICK] + [QUICK] + [QUICK], n)
  }

  lemma ElapsedStep(es: seq<Episode>, e: Episode)
    requires es != []
    ensures Elapsed(es + [e]) == Elapsed(es) + e.run + Pause(es + [e]) + e.late
    ensures Pause(es + [e]) == if e.run > MINUTE then INITIAL_BACKOFF else Min(2 * Pause(es), MAX_BACKOFF)
  {}

  lemma FourQuick(es: seq<Episode>)
    requires es != [] && Pause(es) == SECOND
    ensures Elapsed(es + [QUICK] + [QUICK] + [QUICK] + [QUICK]) == Elapsed(es) + 30 * SECOND
  {
    ElapsedStep(es, QUICK);
    ElapsedStep(es + [QUICK], QUICK);
    ElapsedStep(es + [QUICK] + [QUICK], QUICK);
    ElapsedStep(es + [QUICK] + [QUICK] + [QUICK], QUICK);
  }

  lemma OneCycle(es: seq<Episode>)
    requires es != []
    ensures |Cycle(es)| == |es| + 5 && Elapsed(Cycle(es)) == Elapsed(es) + 91_000_000_001
  {
    ElapsedStep(es, LONG);
    FourQuick(es + [LONG]);
  }

  lemma {:induction false} CycleTimes(es: seq<Episode>, n: nat)
    requires es != []
    ensures |Cycles(es, n)| == |es| + 5 * n
    ensures Elapsed(Cycles(es, n)) == Elapsed(es) + 91_000_000_001 * n
  {
    hide Elapsed;
    if n > 0 {
      CycleTimes(es, n - 1);
      OneCycle(Cycles(es, n - 1));
    }
  }

  /** The bound cannot be improved: this pattern stays within five nanoseconds per cycle of it. */
  lemma RestartRateIsTight(n: nat)
    ensures var es := WorstCase(n);
      |es| == 5 * n + 5 && 5 * Elapsed(es) + 300 * SECOND - 91 * |es| * SECOND == 5 * n
  {
    FirstPause(QUICK);
    FourQuick([QUICK]);
    CycleTimes([QUICK] + [QUICK] + [QUICK] + [QUICK] + [QUICK], n);
  }

  // -------------------------------------------------------------- the loop

  /** The loop waited these backoffs, and restarted at these instants, after these episodes. */
  ghost predicate Recorded(backoffs: seq<nat>, instants: seq<nat>, es: seq<Episode>) {
    && |backoffs| == |instants| == |es|
    && forall k: nat :: k < |es| ==> RecordedAt(backoffs[k], instants[k], es[..k + 1])
  }

  ghost predicate RecordedAt(backoff: nat, instant: nat, es: seq<Episode>)
    requires es != []
  {
    backoff == Pause(es) && instant == Elapsed(es)
  }

  /** Restarts go on until the first run that is stopped, or ends otherwise than by a crash. */
  predicate EndsAt(script: seq<Episode>, n: nat, stopped: bool) {
    && n <= |script| && (stopped <==> n < |script|)
    && (forall k :: 0 <= k < n ==> script[k].exit == Crash && !script[k].stopping && !script[k].stoppedInPause)
    && (stopped ==> script[n].exit != Crash || script[n].stopping || script[n].stoppedInPause)
  }

  /**
   The clock of the loop: a first pause of a second, then each twice the last up
   to thirty seconds, and a second again after a run of more than a minute.
   */
  ghost predicate Timed(script: seq<Episode>, backoffs: seq<nat>, instants: seq<nat>) {
    && |backoffs| == |instants| <= |script|
    && (forall k :: 0 <= k < |backoffs| ==> IsPause(backoffs, script[k].run, k))
    && (forall k :: 0 <= k < |backoffs| ==>
          instants[k] == (if k == 0 then 0 else instants[k - 1]) + script[k].run + backoffs[k] + script[k].late)
  }

  predicate IsPause(backoffs: seq<nat>, run: nat, k: nat)
    requires k < |backoffs|
  {
    backoffs[k]
      == if k == 0 || run > 60_000_000_000 then 1_000_000_000 else Min(2 * backoffs[k - 1], 30_000_000_000)
  }

  lemma RecordedIsTimed(backoffs: seq<nat>, instants: seq<nat>, script: seq<Episode>, n: nat)
    requires n <= |script| && Recorded(backoffs, instants, script[..n])
    ensures Timed(script, backoffs, instants)
  {
    forall k: nat | k < n
      ensures IsPause(backoffs, script[k].run, k)
      ensures instants[k] == (if k == 0 then 0 else instants[k - 1]) + script[k].run + backoffs[k] + script[k].late
    {
      var es := script[..n];
      assert RecordedAt(backoffs[k], instants[k], es[..k + 1]) && es[..k + 1] == script[..k] + [script[k]];
      if k == 0 {
        FirstPause(script[0]);
      } else {
        assert RecordedAt(backoffs[k - 1], instants[k - 1], es[..k]) && es[..k] == script[..k];
        ElapsedStep(script[..k], script[k]);
      }
    }
  }

  lemma RecordedOneMore(backoffs: seq<nat>, instants: seq<nat>, es: seq<Episode>, e: Episode, b: nat, t: nat)
    requires Recorded(backoffs, instants, es) && RecordedAt(b, t, es + [e])
    ensures Recorded(backoffs + [b], instants + [t], es + [e])
  {
    var all := es + [e];
    forall k: nat | k < |all| ensures RecordedAt((backoffs + [b])[k], (instants + [t])[k], all[..k + 1]) {
      if k < |es| { assert all[..k + 1] == es[..k + 1]; } else { assert all[..k + 1] == all; }
    }
  }

  /** What the loop's variable holds before the next pause is decided. */
  ghost predicate Carries(backoff: nat, es: seq<Episode>) {
    backoff == if es == [] then INITIAL_BACKOFF else Min(Pause(es) * 2, MAX_BACKOFF)
  }

  lemma OnePause(backoff: nat, es: seq<Episode>, e: Episode)
    requires Carries(backoff, es)
    ensures var b := if e.run > MINUTE then INITIAL_BACKOFF else backoff;
      RecordedAt(b, Elapsed(es) + e.run + b + e.late, es + [e])
  {}

  lemma FirstPause(e: Episode)
    ensures Pause([e]) == INITIAL_BACKOFF && Elapsed([e]) == e.run + INITIAL_BACKOFF + e.late
  {}

  /** The state of the loop after i restarts. */
  ghost predicate Reached(script: seq<Episode>, i: nat, backoffs: seq<nat>, instants: seq<nat>, clock: nat, next: nat) {
    && i <= |script| && (forall k :: 0 <= k < i ==> Restarts(script[k]))
    && Recorded(backoffs, instants, script[..i]) && clock == Elapsed(script[..i]) && Carries(next, script[..i])
  }

  lemma ReachedStart(script: seq<Episode>)
    ensures Reached(script, 0, [], [], 0, INITIAL_BACKOFF)
  {}

  lemma ReachedStep(script: seq<Episode>, i: nat, backoffs: seq<nat>, instants: seq<nat>, clock: nat, next: nat)
    requires Reached(script, i, backoffs, instants, clock, next) && i < |script| && Restarts(script[i])
    ensures var e := script[i]; var b := if e.run > MINUTE then INITIAL_BACKOFF else next;
      var t := clock + e.run + b + e.late;
      Reached(script, i + 1, backoffs + [b], instants + [t], t, Min(b * 2, MAX_BACKOFF))
  {
    var es, e := script[..i], script[i];
    var b := if e.run > MINUTE then INITIAL_BACKOFF else next;
    OnePause(next, es, e);
    RecordedOneMore(backoffs, instants, es, e, b, clock + e.run + b + e.late);
    assert script[..i + 1] == es + [e];
  }

  lemma ReachedEnd(script: seq<Episode>, i: nat, backoffs: seq<nat>, instants: seq<nat>, clock: nat, next: nat)
    requires Reached(script, i, backoffs, instants, clock, next) && (i == |script| || !Restarts(script[i]))
    ensures Recorded(backoffs, instants, Restarted(script)) && |Restarted(script)| == i
    ensures EndsAt(script, |backoffs|, i < |script|) && Timed(script, backoffs, instants)
  {
    RestartedPrefix(script, i);
    RecordedIsTimed(backoffs, instants, script, i);
  }

  /**
   Runs the loop over a script and returns the backoffs it waited and how much
   time had passed at each restart. `stopped` tells that the loop returned.
   */
  method Supervise(script: seq<Episode>) returns (backoffs: seq<nat>, instants: seq<nat>, stopped: bool)
    ensures Recorded(backoffs, instants, Restarted(script))
    ensures stopped <==> |Restarted(script)| < |script|
    ensures EndsAt(script, |backoffs|, stopped) && Timed(script, backoffs, instants)
  {
    hide Reached, Recorded, Restarted, EndsAt, Timed;
    var backoff := INITIAL_BACKOFF;
    backoffs, instants, stopped := [], [], false;
    var clock: nat, i: nat := 0, 0;
    ReachedStart(script);
    while i < |script|
      invariant 0 <= i <= |script| && !stopped
      invariant Reached(script, i, backoffs, instants, clock, backoff)
    {
      var e := script[i];
      if Restarts(e) {
        ReachedStep(script, i, backoffs, instants, clock, backoff);
      } else {
        ReachedEnd(script, i, backoffs, instants, clock, backoff);
      }
      if e.stopping {
        stopped := true;
        return;
      }
      if e.exit == Clean || e.exit == Canceled {
        stopped := true;
        return;
      }
      if e.run > MINUTE {
        backoff := INITIAL_BACKOFF;
      }
      if e.stoppedInPause {
        stopped := true;
        return;
      }
      clock := clock + e.run + backoff + e.late;
      backoffs := backoffs + [backoff];
      instants := instants + [clock];
      backoff := Min(backoff * 2, MAX_BACKOFF);
      i := i + 1;
    }
    ReachedEnd(script, i, backoffs, instants, clock, backoff);
  }

  /** `Restarted` is the longest prefix of restarting episodes. */
  lemma {:induction false} RestartedPrefix(script: seq<Episode>, i: nat)
    requires i <= |script| && forall k :: 0 <= k < i ==> Restarts(script[k])
    ensures i == |script| || !Restarts(script[i]) ==> Restarted(script) == script[..i]
    decreases |script|
  {
    if script != [] && Restarts(script[0]) && (i == |script| || !Restarts(script[i])) {
      RestartedPrefix(script[1..], i - 1);
      assert script[..i] == [script[0]] + script[1..][..i - 1];
    }
  }
}
