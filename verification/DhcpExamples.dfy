/** Runs of the DHCP service that show where its promises end. */
module DhcpExamples {
  import opened Basics
  import opened IPv4
  import opened Leases
  import opened LeaseStore
  import opened DhcpSystem
  import DhcpServer

  const A: uint32 := 10
  const ONE_LEFT := Pool(A, A, SECOND, map[], map[])

  /** The steps of the example: x's lease lapses, y takes the address, the process restarts, z asks. */
  function LostSteps(x: string, y: string, z: string): seq<Step> {
    [Discover(0, x, NIL, ""), Discover(2 * SECOND, y, NIL, ""),
     Restart(2 * SECOND, ONE_LEFT), Discover(2 * SECOND, z, NIL, "")]
  }

  function LostLog(x: string, y: string, z: string): seq<Event> {
    [Granted(0, x, A, SECOND, true), Granted(2 * SECOND, y, A, 3 * SECOND, false),
     Restarted(2 * SECOND, A, A), Granted(2 * SECOND, z, A, 3 * SECOND, false)]
  }

  /** The states of the example: only one client holds the address, only x is on disk. */
  function LostState(x: string, holder: string, now: int, log: seq<Event>): System {
    var l := Lease(holder, A, now + SECOND);
    System(Pool(A, A, SECOND, map[holder := l], map[A := l]), map[x := Row(A, "", 1)], now, map[], log)
  }

  function AfterRestart(x: string, log: seq<Event>): System {
    System(ONE_LEFT, map[x := Row(A, "", 1)], 2 * SECOND, map[], log)
  }

  const LOST_START := System(ONE_LEFT, map[], 0, map[], [])

  /** The step is enabled in s and leads to t. */
  ghost predicate Leads(s: System, step: Step, t: System) {
    Enabled(s, step) && Next(s, step) == t
  }

  lemma LostFirst(x: string, y: string, z: string)
    ensures Leads(LOST_START, LostSteps(x, y, z)[0], LostState(x, x, 0, LostLog(x, y, z)[..1]))
  {
    OnlyAddress(LOST_START, 0, x);
    assert LostLog(x, y, z)[..1] == [Granted(0, x, A, SECOND, true)];
  }

  lemma LostSecond(x: string, y: string, z: string)
    requires x != y
    ensures var log := LostLog(x, y, z);
      Leads(LostState(x, x, 0, log[..1]), LostSteps(x, y, z)[1], LostState(x, y, 2 * SECOND, log[..2]))
  {
    var log := LostLog(x, y, z);
    var s := LostState(x, x, 0, log[..1]);
    OnlyAddress(s, 2 * SECOND, y);
    assert s.rows[x].ip == A;
    var t := Next(s, Discover(2 * SECOND, y, NIL, ""));
    assert t.pool.byMAC == map[y := Lease(y, A, 3 * SECOND)];
    assert t.pool.byIP == map[A := Lease(y, A, 3 * SECOND)];
    assert log[..2] == log[..1] + [Granted(2 * SECOND, y, A, 3 * SECOND, false)];
  }

  /** The only row lapsed a second ago: the restart finds nothing to load. */
  lemma LostThird(x: string, y: string, z: string)
    ensures var log := LostLog(x, y, z);
      Leads(LostState(x, y, 2 * SECOND, log[..2]), LostSteps(x, y, z)[2], AfterRestart(x, log[..3]))
  {
    var log := LostLog(x, y, z);
    assert !Loaded(Row(A, "", 1), 2 * SECOND, A, A);
    assert log[..3] == log[..2] + [Restarted(2 * SECOND, A, A)];
  }

  lemma LostFourth(x: string, y: string, z: string)
    requires x != z
    ensures var log := LostLog(x, y, z);
      Leads(AfterRestart(x, log[..3]), LostSteps(x, y, z)[3], LostState(x, z, 2 * SECOND, log))
  {
    var log := LostLog(x, y, z);
    var s := AfterRestart(x, log[..3]);
    OnlyAddress(s, 2 * SECOND, z);
    assert s.rows[x].ip == A;
    assert log == log[..3] + [Granted(2 * SECOND, z, A, 3 * SECOND, false)];
  }

  /** Steps taken in order are a run. */
  lemma RunOfThree(steps: seq<Step>, s0: System, s1: System, s2: System, s3: System)
    requires |steps| == 3
    requires Leads(s0, steps[0], s1) && Leads(s1, steps[1], s2) && Leads(s2, steps[2], s3)
    ensures Possible(s0, steps) && Run(s0, steps) == s3
  {
    hide Enabled, Next;
    assert steps[2..][1..] == [] && steps[1..][1..] == steps[2..];
    assert Possible(s3, []) && Run(s3, []) == s3;
    assert Possible(s2, steps[2..]) && Run(s2, steps[2..]) == s3;
    assert Possible(s1, steps[1..]) && Run(s1, steps[1..]) == s3;
  }

  lemma RunOfFour(steps: seq<Step>, s0: System, s1: System, s2: System, s3: System, s4: System)
    requires |steps| == 4
    requires Leads(s0, steps[0], s1) && Leads(s1, steps[1], s2) && Leads(s2, steps[2], s3) && Leads(s3, steps[3], s4)
    ensures Possible(s0, steps) && Run(s0, steps) == s4
  {
    hide Enabled, Next;
    RunOfThree(steps[1..], s1, s2, s3, s4);
  }

  /**
   A grant that was not saved does not survive a restart: the lapsed row of x
   keeps y's lease from being written, and after the restart z gets the address
   while y's lease still has a second to run.
   */
  lemma UnsavedGrantIsLost(x: string, y: string, z: string)
    requires x != y && y != z && x != z
    ensures Init(LOST_START) && Possible(LOST_START, LostSteps(x, y, z))
    ensures Run(LOST_START, LostSteps(x, y, z)).log == LostLog(x, y, z)
  {
    hide Leads, Possible, Run;
    LostFirst(x, y, z);
    LostSecond(x, y, z);
    LostThird(x, y, z);
    LostFourth(x, y, z);
    var log := LostLog(x, y, z);
    RunOfFour(LostSteps(x, y, z), LOST_START, LostState(x, x, 0, log[..1]), LostState(x, y, 2 * SECOND, log[..2]),
              AfterRestart(x, log[..3]), LostState(x, z, 2 * SECOND, log));
  }

  /** In a pool of one address, a stranger gets it as soon as it is free. */
  lemma OnlyAddress(s: System, at: int, mac: string)
    requires s.pool.start == s.pool.end == A && mac !in s.pool.byMAC && s.pool.Free(A, at)
    ensures Choose(s.pool, at, mac, NIL) == Some(A)
    ensures var t := Grant(s, at, mac, NIL, ""); var l := Lease(mac, A, at + s.pool.duration);
      && t.pool == Record(s.pool, l)
      && t.rows == (if Clash(s.rows, mac, A) then s.rows else s.rows[mac := Row(A, "", FormatTime(l.expires))])
      && t.log == s.log + [Granted(at, mac, A, l.expires, !Clash(s.rows, mac, A))]
  {}

  /** A pool of the addresses a..end in which only mac has a lease. */
  function Holding(a: uint32, end: uint32, mac: string, expires: int): Pool {
    Pool(a, end, SECOND, map[mac := Lease(mac, a, expires)], map[a := Lease(mac, a, expires)])
  }

  /** A range that ends at 255.255.255.255: with its only address leased, a stranger is given 0.0.0.0. */
  lemma StrangerGetsZero(mac: string, other: string)
    requires mac != other
    ensures var p := Holding(MAX_UINT32, MAX_UINT32, mac, SECOND);
      p.Inverse() && p.InRange() && p.SearchEnds(0) && Choose(p, 0, other, NIL) == Some(0)
  {
    var p := Holding(MAX_UINT32, MAX_UINT32, mac, SECOND);
    assert !p.Free(MAX_UINT32, 0) && p.Free(0, 0);
  }

  /** A REQUEST is confirmed, its client gives up, and the address goes to another client. */
  function RaceSteps(now: int, id: nat, mac: string, other: string): seq<Step> {
    [Check(now, id, mac, FromUint(A)), GiveUp(now, mac), Discover(now, other, NIL, "")]
  }

  lemma RaceMovesAddress(s: System, end: uint32, now: int, id: nat, mac: string, other: string)
    requires s.pool == Holding(A, end, mac, now) && end in {A, A + 1}
    requires mac != other && s.now <= now && id !in s.handlers
    ensures Possible(s, RaceSteps(now, id, mac, other))
    ensures var t := Run(s, RaceSteps(now, id, mac, other));
      && t.pool == Holding(A, end, other, now + SECOND)
      && t.now == now && id in t.handlers && t.handlers[id] == Handler(mac, FromUint(A), true)
  {
    FromToUint(A);
    var steps := RaceSteps(now, id, mac, other);
    var s1 := Next(s, steps[0]);
    var s2 := Next(s1, steps[1]);
    assert s2.pool == Pool(A, end, SECOND, map[], map[]);
    assert Choose(s2.pool, now, other, NIL) == Some(A);
    RunOfThree(steps, s, s1, s2, Next(s2, steps[2]));
  }

  /** In a range of one address, the handler caught by that race acknowledges without an address. */
  lemma InterleavedAckWithoutAddress(s: System, mac: string, other: string, now: int, id: nat)
    requires s.pool == Holding(A, A, mac, now) && mac != other && s.now <= now && id !in s.handlers
    ensures Possible(s, RaceSteps(now, id, mac, other))
    ensures var t := Run(s, RaceSteps(now, id, mac, other));
      && id in t.handlers && Enabled(t, Finish(now, id, ""))
      && ReplyOf(t, now, t.handlers[id]) == DhcpServer.Ack(NIL)
  {
    hide Run, Possible, RaceSteps;
    RaceMovesAddress(s, A, now, id, mac, other);
    FromToUint(A);
  }

  /** In a range of two, it acknowledges the other address, for which the client did not ask. */
  lemma InterleavedAckOfAnother(s: System, mac: string, other: string, now: int, id: nat)
    requires s.pool == Holding(A, A + 1, mac, now) && mac != other && s.now <= now && id !in s.handlers
    ensures Possible(s, RaceSteps(now, id, mac, other))
    ensures var t := Run(s, RaceSteps(now, id, mac, other));
      && id in t.handlers && Enabled(t, Finish(now, id, ""))
      && ReplyOf(t, now, t.handlers[id]) == DhcpServer.Ack(FromUint(A + 1))
  {
    hide Run, Possible, RaceSteps;
    RaceMovesAddress(s, A + 1, now, id, mac, other);
    FromToUint(A);
    var p := Holding(A, A + 1, other, now + SECOND);
    assert !p.Free(A, now) && p.Free(A + 1, now);
    assert Choose(p, now, mac, FromUint(A)) == Some(A + 1);
  }
}
