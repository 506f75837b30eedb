/**
 The DHCP service over time: the pool, its table, REQUEST handlers caught
 between Confirm and Allocate, and restarts of the process. A step is one
 critical section of the pool, so handlers interleave freely.
 */
module DhcpSystem {
  import opened Basics
  import opened IPv4
  import opened Leases
  import opened LeaseStore
  import DhcpServer

  /** What the outside world can learn, in order. A grant counts at its Allocate. */
  datatype Event =
    | Granted(at: int, mac: string, ip: uint32, expires: int, saved: bool)
    | Refused(at: int, mac: string)
    | Released(at: int, mac: string)
    | Restarted(at: int, start: uint32, end: uint32)

  /** A REQUEST handler that has run Confirm and not yet Allocate. */
  datatype Handler = Handler(mac: string, wanted: IP, confirmed: bool)

  datatype System = System(pool: Pool, rows: Rows, now: int, handlers: map<nat, Handler>, log: seq<Event>)

  datatype Step =
    | Discover(at: int, mac: string, requested: IP, hostname: string)
    | Check(at: int, id: nat, mac: string, wanted: IP)
    | Finish(at: int, id: nat, hostname: string)
    | GiveUp(at: int, mac: string)
    | Restart(at: int, pool: Pool)

  ghost predicate Enabled(s: System, step: Step) {
    && s.now <= step.at
    && match step
       case Discover(at, mac, requested, _) => s.pool.AllocateEnds(at, mac, requested)
       case Check(_, id, _, _) => id !in s.handlers
       case Finish(at, id, _) =>
         id in s.handlers && s.pool.AllocateEnds(at, s.handlers[id].mac, s.handlers[id].wanted)
       case GiveUp(_, _) => true
       case Restart(at, pool) => IsReload(pool, s.rows, at)
  }

  // ------------------------------------------------------------------ steps

  /** Allocate together with its write-through. */
  function Grant(s: System, at: int, mac: string, wanted: IP, hostname: string): System {
    match Choose(s.pool, at, mac, wanted)
    case None => s.(now := at, log := s.log + [Refused(at, mac)])
    case Some(a) =>
      var expires := at + s.pool.duration;
      System(Allocate(s.pool, at, mac, wanted), Upsert(s.rows, mac, Row(a, hostname, FormatTime(expires))),
             at, s.handlers, s.log + [Granted(at, mac, a, expires, !Clash(s.rows, mac, a))])
  }

  function Drop(s: System, at: int, mac: string): System {
    System(Release(s.pool, mac), if mac in s.pool.byMAC then s.rows - {mac} else s.rows,
           at, s.handlers, s.log + [Released(at, mac)])
  }

  predicate Loaded(row: Row, now: int, start: uint32, end: uint32) {
    Active(row, now) && start <= row.ip <= end
  }

  function RestoredLease(mac: string, row: Row): Lease { Lease(mac, row.ip, ParseTime(row.expires)) }

  /** The pool a start of the process builds from the table: the active rows of its range. */
  ghost predicate IsReload(p: Pool, rows: Rows, now: int) {
    && p.start <= p.end && p.Inverse()
    && (forall m :: m in p.byMAC <==> m in rows && Loaded(rows[m], now, p.start, p.end))
    && (forall m :: m in p.byMAC ==> p.byMAC[m] == RestoredLease(m, rows[m]))
  }

  function Next(s: System, step: Step): System
    requires step.Finish? ==> step.id in s.handlers
  {
    match step
    case Discover(at, mac, requested, hostname) => Grant(s, at, mac, requested, hostname)
    case Check(at, id, mac, wanted) =>
      s.(now := at, handlers := s.handlers[id := Handler(mac, wanted, Confirm(s.pool, at, mac, wanted))])
    case Finish(at, id, hostname) =>
      var h := s.handlers[id];
      Grant(s.(handlers := s.handlers - {id}), at, h.mac, h.wanted, hostname)
    case GiveUp(at, mac) => Drop(s, at, mac)
    case Restart(at, pool) =>
      System(pool, s.rows, at, map[], s.log + [Restarted(at, pool.start, pool.end)])
  }

  /** What the handler finishing in this step sends. */
  function ReplyOf(s: System, at: int, h: Handler): DhcpServer.Reply {
    DhcpServer.Answer(h.confirmed, h.wanted,
      match Choose(s.pool, at, h.mac, h.wanted) case None => NIL case Some(a) => FromUint(a))
  }

  // ------------------------------------------------------------- vocabulary

  /** Between i and j the client of grant i neither gets anything else nor gives it up. */
  ghost predicate Latest(log: seq<Event>, i: nat, j: nat)
    requires i < j <= |log| && log[i].Granted?
  {
    forall k :: i < k < j && (log[k].Granted? || log[k].Released?) ==> log[k].mac != log[i].mac
  }

  ghost predicate Uncut(log: seq<Event>, i: nat, j: nat)
    requires i < j <= |log|
  {
    forall k :: i < k < j ==> !log[k].Restarted?
  }

  /** Every range configured at a restart in between contains the address of grant i. */
  ghost predicate StaysInRange(log: seq<Event>, i: nat, j: nat)
    requires i < j <= |log| && log[i].Granted?
  {
    forall k :: i < k < j && log[k].Restarted? ==> log[k].start <= log[i].ip <= log[k].end
  }

  /**
   Grant i still binds the server at time t: its interval is running and either
   the process has not restarted since, or the lease reached the disk, where it
   is worth whole seconds.
   */
  ghost predicate Binds(log: seq<Event>, i: nat, j: nat, t: int)
    requires i < j <= |log|
  {
    && log[i].Granted? && Latest(log, i, j)
    && ( || (Uncut(log, i, j) && t <= log[i].expires)
         || (log[i].saved && StaysInRange(log, i, j) && FormatTime(t) < FormatTime(log[i].expires)))
  }

  /** Event j respects grant i: nobody else gets the address, its client is neither moved nor refused. */
  ghost predicate Respects(log: seq<Event>, i: nat, j: nat)
    requires i < j < |log| && log[i].Granted?
  {
    match log[j]
    case Granted(_, mac, ip, _, _) => mac == log[i].mac <==> ip == log[i].ip
    case Refused(_, mac) => mac != log[i].mac
    case _ => true
  }

  ghost predicate LogSafe(log: seq<Event>) {
    forall i: nat, j: nat :: i < j < |log| && Binds(log, i, j, log[j].at) ==> Respects(log, i, j)
  }

  // ------------------------------------------------------------- invariants

  /** Every binding grant is in memory, with its address and its end. */
  ghost predicate Held(s: System) {
    forall i: nat :: i < |s.log| && Binds(s.log, i, |s.log|, s.now) ==> HeldAs(s, i)
  }

  ghost predicate HeldAs(s: System, i: nat)
    requires i < |s.log| && s.log[i].Granted?
  {
    var g := s.log[i];
    && g.mac in s.pool.byMAC
    && s.pool.byMAC[g.mac].ip == g.ip
    && FormatTime(s.pool.byMAC[g.mac].expires) == FormatTime(g.expires)
    && (Uncut(s.log, i, |s.log|) ==> s.pool.byMAC[g.mac].expires == g.expires)
  }

  /** Until its client acts again, a saved grant keeps its row, and an unsaved one is resembled by none. */
  ghost predicate RowsKept(s: System) {
    forall i: nat :: i < |s.log| && s.log[i].Granted? && Latest(s.log, i, |s.log|) ==> RowKept(s.rows, s.log[i])
  }

  ghost predicate RowKept(rows: Rows, g: Event)
    requires g.Granted?
  {
    if g.saved then g.mac in rows && rows[g.mac].ip == g.ip && rows[g.mac].expires == FormatTime(g.expires)
    else g.mac in rows ==> rows[g.mac].ip != g.ip
  }

  /** What an active row says in the range is what the memory holds. */
  ghost predicate DiskSound(p: Pool, rows: Rows, now: int) {
    forall m :: m in rows && Loaded(rows[m], now, p.start, p.end) ==>
      m in p.byMAC && p.byMAC[m].ip == rows[m].ip && FormatTime(p.byMAC[m].expires) == rows[m].expires
  }

  ghost predicate Ordered(s: System) {
    && (forall i: nat :: i < |s.log| ==> s.log[i].at <= s.now)
    && (forall i: nat, j: nat :: i < j < |s.log| ==> s.log[i].at <= s.log[j].at)
    && (forall i: nat :: i < |s.log| && s.log[i].Granted? && Uncut(s.log, i, |s.log|) ==>
          s.log[i].expires == s.log[i].at + s.pool.duration)
    && (forall i: nat, j: nat :: i < j < |s.log| && s.log[i].Granted? && s.log[j].Granted? && Uncut(s.log, i, j) ==>
          s.log[i].expires - s.log[i].at == s.log[j].expires - s.log[j].at)
  }

  ghost predicate Inv(s: System) {
    && s.pool.Inverse() && UniqueIPs(s.rows) && s.pool.start <= s.pool.end
    && DiskSound(s.pool, s.rows, s.now)
    && Ordered(s) && RowsKept(s) && Held(s) && LogSafe(s.log)
  }

  /** A process just started over some table. */
  ghost predicate Init(s: System) {
    UniqueIPs(s.rows) && s.log == [] && s.handlers == map[] && IsReload(s.pool, s.rows, s.now)
  }

  // ----------------------------------------------------- reload and disk

  /** The table, the range and the clock determine the pool. */
  lemma ReloadIsUnique(p: Pool, q: Pool, rows: Rows, now: int)
    requires IsReload(p, rows, now) && IsReload(q, rows, now)
    requires p.start == q.start && p.end == q.end && p.duration == q.duration
    ensures p == q
  {}

  lemma ReloadIsSound(p: Pool, rows: Rows, now: int)
    requires IsReload(p, rows, now)
    ensures p.InRange() && DiskSound(p, rows, now)
  {}

  /** A restart with the range unchanged brings back leases held before, each shortened by less than a second. */
  lemma RestartIsSubmap(p: Pool, q: Pool, rows: Rows, now: int)
    requires DiskSound(p, rows, now) && IsReload(q, rows, now) && q.start == p.start && q.end == p.end
    ensures forall m :: m in q.byMAC ==>
      && m in p.byMAC && q.byMAC[m].ip == p.byMAC[m].ip
      && now < q.byMAC[m].expires <= p.byMAC[m].expires < q.byMAC[m].expires + SECOND
  {}

  lemma DiskSoundLater(p: Pool, rows: Rows, t1: int, t2: int)
    requires t1 <= t2 && DiskSound(p, rows, t1)
    ensures DiskSound(p, rows, t2)
  {}

  /** An active row's lease is running in memory. */
  lemma ActiveRowIsLive(p: Pool, rows: Rows, now: int, m: string)
    requires DiskSound(p, rows, now) && m in rows && Loaded(rows[m], now, p.start, p.end)
    ensures m in p.byMAC && now <= p.byMAC[m].expires
  {}

  /**
   The write-through ignores the table's refusals, and still no active row lies:
   a refusal only leaves behind a row that has run out.
   */
  lemma GrantKeepsDiskSound(s: System, at: int, mac: string, wanted: IP, hostname: string)
    requires s.pool.Inverse() && UniqueIPs(s.rows) && DiskSound(s.pool, s.rows, at)
    ensures var t := Grant(s, at, mac, wanted, hostname); DiskSound(t.pool, t.rows, at)
  {
    var t := Grant(s, at, mac, wanted, hostname);
    forall m | m in t.rows && Loaded(t.rows[m], at, t.pool.start, t.pool.end)
      ensures m in t.pool.byMAC && t.pool.byMAC[m].ip == t.rows[m].ip
           && FormatTime(t.pool.byMAC[m].expires) == t.rows[m].expires
    {
      if m != mac {
        ActiveRowIsLive(s.pool, s.rows, at, m);
        AllocateSparesLive(s.pool, at, mac, wanted, m);
      } else if t.rows == s.rows && t.pool != s.pool && Clash(s.rows, mac, Choose(s.pool, at, mac, wanted).value) {
        // Then the client kept the address of its own row, which no other row can carry.
        ActiveRowIsLive(s.pool, s.rows, at, mac);
      }
    }
  }

  lemma DropKeepsDiskSound(s: System, at: int, mac: string)
    requires s.pool.Inverse() && DiskSound(s.pool, s.rows, at)
    ensures var t := Drop(s, at, mac); DiskSound(t.pool, t.rows, at)
  {}

  /** A grant reaches the disk exactly when no other client's row, lapsed or not, has its address. */
  lemma SavedIff(s: System, at: int, mac: string, wanted: IP, hostname: string)
    requires s.pool.Inverse() && Choose(s.pool, at, mac, wanted).Some?
    ensures var t := Grant(s, at, mac, wanted, hostname); var a := Choose(s.pool, at, mac, wanted).value;
      var row := Row(a, hostname, FormatTime(at + s.pool.duration));
      && (t.log[|s.log|].saved <==> forall m :: m in s.rows && s.rows[m].ip == a ==> m == mac)
      && (t.log[|s.log|].saved ==> mac in t.rows && t.rows[mac] == row)
      && (!t.log[|s.log|].saved ==> t.rows == s.rows)
  {}

  // --------------------------------------------------------- steps keep Inv

  /** Binding is inherited by every earlier moment. */
  lemma BindsEarlier(log: seq<Event>, more: seq<Event>, i: nat, t1: int, t2: int)
    requires i < |log| && t1 <= t2 && Binds(log + more, i, |log + more|, t2)
    ensures Binds(log, i, |log|, t2) && Binds(log, i, |log|, t1)
    ensures Uncut(log + more, i, |log + more|) ==> Uncut(log, i, |log|)
  {
    var all := log + more;
    assert forall k :: i < k < |log| ==> all[k] == log[k];
    assert all[i] == log[i];
    assert Latest(log, i, |log|);
    if Uncut(all, i, |all|) {
      assert Uncut(log, i, |log|);
    }
    if StaysInRange(all, i, |all|) {
      assert StaysInRange(log, i, |log|);
    }
    FormatMonotone(t1, t2);
  }

  /** While a grant binds, its lease is running in memory. */
  lemma BindingIsLive(s: System, i: nat, t: int)
    requires i < |s.log| && s.now <= t && Binds(s.log, i, |s.log|, t) && Held(s)
    ensures HeldAs(s, i) && t <= s.pool.byMAC[s.log[i].mac].expires
  {}

  /** Appending one event keeps the order of the log. */
  lemma OrderedAppend(s: System, t: System, e: Event)
    requires Ordered(s) && t.log == s.log + [e] && s.now <= t.now && e.at == t.now
    requires e.Restarted? || t.pool.duration == s.pool.duration
    requires e.Granted? ==> e.expires == e.at + t.pool.duration
    ensures Ordered(t)
  {
    forall i: nat | i < |t.log| && t.log[i].Granted? && Uncut(t.log, i, |t.log|)
      ensures t.log[i].expires == t.log[i].at + t.pool.duration
    {
      if i < |s.log| {
        assert t.log[|s.log|] == e && !e.Restarted?;
        forall k | i < k < |s.log| ensures !s.log[k].Restarted? { assert t.log[k] == s.log[k]; }
      }
    }
    forall i: nat, j: nat | i < j < |t.log| && t.log[i].Granted? && t.log[j].Granted? && Uncut(t.log, i, j)
      ensures t.log[i].expires - t.log[i].at == t.log[j].expires - t.log[j].at
    {
      forall k | i < k < j ensures !s.log[k].Restarted? { assert t.log[k] == s.log[k]; }
      if j < |s.log| {
        assert Uncut(s.log, i, j);
      } else {
        assert Uncut(s.log, i, |s.log|);
      }
    }
  }

  /** A log stays safe when the new event respects every grant that binds. */
  lemma LogSafeAppend(log: seq<Event>, e: Event)
    requires LogSafe(log)
    requires forall i: nat :: i < |log| && Binds(log + [e], i, |log|, e.at) ==> Respects(log + [e], i, |log|)
    ensures LogSafe(log + [e])
  {
    var all := log + [e];
    forall i: nat, j: nat | i < j < |all| && Binds(all, i, j, all[j].at) ensures Respects(all, i, j) {
      if j < |log| {
        forall k | 0 <= k <= j ensures all[k] == log[k] {}
        assert Binds(log, i, j, log[j].at) by {
          assert Latest(log, i, j);
          if Uncut(all, i, j) { assert Uncut(log, i, j); }
          if StaysInRange(all, i, j) { assert StaysInRange(log, i, j); }
        }
        assert Respects(log, i, j);
      }
    }
  }

  /** Binding up to the last event is binding in the log without it. */
  lemma BindsBeforeLast(log: seq<Event>, e: Event, i: nat, t: int)
    requires i < |log|
    ensures Binds(log + [e], i, |log|, t) <==> Binds(log, i, |log|, t)
  {
    var all := log + [e];
    assert forall k :: 0 <= k < |log| ==> all[k] == log[k];
    assert log[i].Granted? ==> (Latest(all, i, |log|) <==> Latest(log, i, |log|));
    assert Uncut(all, i, |log|) <==> Uncut(log, i, |log|);
    assert log[i].Granted? ==> (StaysInRange(all, i, |log|) <==> StaysInRange(log, i, |log|));
  }

  /** An event that leaves a grant the latest of its client does not concern that client. */
  lemma LatestEarlier(log: seq<Event>, e: Event, i: nat)
    requires i < |log| && log[i].Granted? && Latest(log + [e], i, |log| + 1)
    ensures Latest(log, i, |log|) && (e.Granted? || e.Released? ==> e.mac != log[i].mac)
  {
    var all := log + [e];
    assert all[|log|] == e;
    forall k | i < k < |log| && (log[k].Granted? || log[k].Released?) ensures log[k].mac != log[i].mac {
      assert all[k] == log[k];
    }
  }

  /** Rows of clients the event does not concern are left alone. */
  lemma RowsKeptAppend(s: System, t: System, e: Event)
    requires RowsKept(s) && t.log == s.log + [e] && (e.Granted? ==> RowKept(t.rows, e))
    requires forall m: string :: (e.Granted? || e.Released? ==> m != e.mac) ==>
      (m in t.rows <==> m in s.rows) && (m in s.rows ==> t.rows[m] == s.rows[m])
    ensures RowsKept(t)
  {
    forall i: nat | i < |t.log| && t.log[i].Granted? && Latest(t.log, i, |t.log|) ensures RowKept(t.rows, t.log[i]) {
      if i < |s.log| { LatestEarlier(s.log, e, i); }
    }
  }

  lemma GrantRespects(s: System, at: int, mac: string, wanted: IP, hostname: string, i: nat)
    requires Inv(s) && s.now <= at && i < |s.log| && Binds(s.log, i, |s.log|, at)
    ensures var t := Grant(s, at, mac, wanted, hostname);
      t.log[..|s.log|] == s.log && Respects(t.log, i, |s.log|)
  {
    BindingIsLive(s, i, at);
    if mac != s.log[i].mac {
      AllocateSparesLive(s.pool, at, mac, wanted, s.log[i].mac);
    }
  }

  lemma GrantKeepsHeld(s: System, at: int, mac: string, wanted: IP, hostname: string)
    requires Inv(s) && s.now <= at
    ensures Held(Grant(s, at, mac, wanted, hostname))
  {
    var t := Grant(s, at, mac, wanted, hostname);
    var e := t.log[|s.log|];
    assert t.log == s.log + [e];
    forall i: nat | i < |t.log| && Binds(t.log, i, |t.log|, t.now) ensures HeldAs(t, i) {
      if i < |s.log| {
        BindsEarlier(s.log, [e], i, s.now, at);
        BindingIsLive(s, i, at);
        if mac != s.log[i].mac {
          AllocateSparesLive(s.pool, at, mac, wanted, s.log[i].mac);
        } else {
          assert e.Refused?;
        }
      }
    }
  }

  lemma GrantKeepsLogSafe(s: System, at: int, mac: string, wanted: IP, hostname: string)
    requires Inv(s) && s.now <= at
    ensures LogSafe(Grant(s, at, mac, wanted, hostname).log)
  {
    var t := Grant(s, at, mac, wanted, hostname);
    var e := t.log[|s.log|];
    assert t.log == s.log + [e];
    forall i: nat | i < |s.log| && Binds(s.log + [e], i, |s.log|, e.at) ensures Respects(s.log + [e], i, |s.log|) {
      BindsBeforeLast(s.log, e, i, at);
      GrantRespects(s, at, mac, wanted, hostname, i);
    }
    LogSafeAppend(s.log, e);
  }

  lemma GrantKeepsRows(s: System, at: int, mac: string, wanted: IP, hostname: string)
    requires Inv(s) && s.now <= at
    ensures var t := Grant(s, at, mac, wanted, hostname);
      DiskSound(t.pool, t.rows, t.now) && Ordered(t) && RowsKept(t)
  {
    hide Held, LogSafe;
    DiskSoundLater(s.pool, s.rows, s.now, at);
    GrantKeepsDiskSound(s, at, mac, wanted, hostname);
    var t := Grant(s, at, mac, wanted, hostname);
    var e := t.log[|s.log|];
    OrderedAppend(s, t, e);
    RowsKeptAppend(s, t, e);
  }

  lemma GrantKeepsInv(s: System, at: int, mac: string, wanted: IP, hostname: string)
    requires Inv(s) && s.now <= at
    ensures Inv(Grant(s, at, mac, wanted, hostname))
  {
    AllocateKeepsInverse(s.pool, at, mac, wanted);
    GrantKeepsRows(s, at, mac, wanted, hostname);
    hide DiskSound, Held, LogSafe, Ordered, RowsKept;
    GrantKeepsHeld(s, at, mac, wanted, hostname);
    GrantKeepsLogSafe(s, at, mac, wanted, hostname);
  }

  lemma DropKeepsInv(s: System, at: int, mac: string)
    requires Inv(s) && s.now <= at
    ensures Inv(Drop(s, at, mac))
  {
    var t := Drop(s, at, mac);
    var e := Released(at, mac);
    ReleaseKeepsInverse(s.pool, mac);
    DiskSoundLater(s.pool, s.rows, s.now, at);
    DropKeepsDiskSound(s, at, mac);
    OrderedAppend(s, t, e);
    RowsKeptAppend(s, t, e);
    forall i: nat | i < |t.log| && Binds(t.log, i, |t.log|, t.now) ensures HeldAs(t, i) {
      BindsEarlier(s.log, [e], i, s.now, at);
      BindingIsLive(s, i, at);
      assert t.log[|s.log|].mac != t.log[i].mac;
    }
    LogSafeAppend(s.log, e);
  }

  lemma RestartKeepsInv(s: System, at: int, pool: Pool)
    requires Inv(s) && s.now <= at && IsReload(pool, s.rows, at)
    ensures Inv(Next(s, Restart(at, pool)))
  {
    var t := Next(s, Restart(at, pool));
    var e := Restarted(at, pool.start, pool.end);
    ReloadIsSound(pool, s.rows, at);
    OrderedAppend(s, t, e);
    RowsKeptAppend(s, t, e);
    forall i: nat | i < |t.log| && Binds(t.log, i, |t.log|, t.now) ensures HeldAs(t, i) {
      assert t.log[|s.log|] == e && e.Restarted?;
      assert !Uncut(t.log, i, |t.log|);
      var g := t.log[i];
    }
    LogSafeAppend(s.log, e);
  }

  // ------------------------------------------------------------------- runs

  lemma InitInv(s: System)
    requires Init(s)
    ensures Inv(s)
  {}

  lemma NextInv(s: System, step: Step)
    requires Inv(s) && Enabled(s, step)
    ensures Inv(Next(s, step))
  {
    match step
    case Discover(at, mac, requested, hostname) => GrantKeepsInv(s, at, mac, requested, hostname);
    case Check(at, id, mac, wanted) =>
      var t := Next(s, step);
      DiskSoundLater(s.pool, s.rows, s.now, at);
      forall i: nat | i < |t.log| && Binds(t.log, i, |t.log|, t.now) ensures HeldAs(t, i) {
        BindingIsLive(s, i, at);
      }
    case Finish(at, id, hostname) =>
      var h := s.handlers[id];
      var u := s.(handlers := s.handlers - {id});
      assert Held(u) by {
        forall i: nat | i < |u.log| && Binds(u.log, i, |u.log|, u.now) ensures HeldAs(u, i) {
          assert HeldAs(s, i);
        }
      }
      GrantKeepsInv(u, at, h.mac, h.wanted, hostname);
    case GiveUp(at, mac) => DropKeepsInv(s, at, mac);
    case Restart(at, pool) => RestartKeepsInv(s, at, pool);
  }

  /** The steps can be taken one after the other from s. */
  ghost predicate Possible(s: System, steps: seq<Step>)
    decreases |steps|
  {
    steps == [] || (Enabled(s, steps[0]) && Possible(Next(s, steps[0]), steps[1..]))
  }

  ghost function Run(s: System, steps: seq<Step>): System
    requires Possible(s, steps)
    decreases |steps|
  {
    if steps == [] then s else Run(Next(s, steps[0]), steps[1..])
  }

  lemma {:induction false} RunInv(s: System, steps: seq<Step>)
    requires Inv(s) && Possible(s, steps)
    ensures Inv(Run(s, steps))
    decreases |steps|
  {
    if steps != [] {
      NextInv(s, steps[0]);
      RunInv(Next(s, steps[0]), steps[1..]);
    }
  }

  /**
   Exclusivity over every run, restarts and interleaved handlers included. When
   an address granted to one client later goes to another, with nothing granted
   to or given up by the first in between, then the first lease has run out,
   provided the process did not restart; and even across restarts its last whole
   second has begun, provided the grant was saved and its address stayed in range.
   */
  lemma NoDoubleGrant(s: System, steps: seq<Step>, i: nat, j: nat)
    requires Init(s) && Possible(s, steps) && i < j < |Run(s, steps).log|
    requires var log := Run(s, steps).log;
      && log[i].Granted? && log[j].Granted? && log[i].ip == log[j].ip && log[i].mac != log[j].mac
      && Latest(log, i, j)
    ensures var log := Run(s, steps).log;
      && (Uncut(log, i, j) ==> log[j].at > log[i].expires)
      && (log[i].saved && StaysInRange(log, i, j) ==> FormatTime(log[j].at) >= FormatTime(log[i].expires))
  {
    InitInv(s);
    RunInv(s, steps);
    var log := Run(s, steps).log;
    assert Binds(log, i, j, log[j].at) ==> Respects(log, i, j);
  }

  /** As long as its grant binds, a client that comes back gets the same address and is never refused. */
  lemma ClientKeepsAddress(s: System, steps: seq<Step>, i: nat, j: nat)
    requires Init(s) && Possible(s, steps) && i < j < |Run(s, steps).log|
    requires var log := Run(s, steps).log;
      && Binds(log, i, j, log[j].at)
      && (log[j].Granted? || log[j].Refused?) && log[j].mac == log[i].mac
    ensures var log := Run(s, steps).log; log[j].Granted? && log[j].ip == log[i].ip
  {
    InitInv(s);
    RunInv(s, steps);
    assert Respects(Run(s, steps).log, i, j);
  }

  ghost predicate GaveUpBetween(log: seq<Event>, i: nat, j: nat, mac: string)
    requires i < j <= |log|
  {
    exists k :: i < k < j && log[k].Released? && log[k].mac == mac
  }

  lemma {:induction false} ReleasedOrExpired(s: System, i: nat, j: nat)
    requires Inv(s) && i < j < |s.log| && Uncut(s.log, i, j)
    requires s.log[i].Granted? && s.log[j].Granted?
    requires s.log[i].ip == s.log[j].ip && s.log[i].mac != s.log[j].mac
    ensures GaveUpBetween(s.log, i, j, s.log[i].mac) || s.log[j].at > s.log[i].expires
    decreases j - i
  {
    var log := s.log;
    if Latest(log, i, j) {
      assert Binds(log, i, j, log[j].at) ==> Respects(log, i, j);
    } else {
      var k := NextAction(log, i, j);
      if log[k].Granted? && log[j].at <= log[i].expires {
        assert Binds(log, i, k, log[k].at);
        assert Respects(log, i, k);
        assert log[k].expires >= log[i].expires;
        ReleasedOrExpired(s, k, j);
      }
    }
  }

  /** The first time the client of grant i acts again. */
  lemma NextAction(log: seq<Event>, i: nat, j: nat) returns (k: nat)
    requires i < j <= |log| && log[i].Granted? && !Latest(log, i, j)
    ensures i < k < j && (log[k].Granted? || log[k].Released?) && log[k].mac == log[i].mac && Latest(log, i, k)
  {
    k := i + 1;
    while !((log[k].Granted? || log[k].Released?) && log[k].mac == log[i].mac)
      invariant i < k < j && Latest(log, i, k)
      decreases j - k
    {
      if k + 1 == j { assert Latest(log, i, j); }
      k := k + 1;
    }
  }

  /**
   The rule of a run without restart: between a grant of an address to one
   client and a grant of it to another, the first client released or declined it,
   or its lease, counted from that very grant, ran out.
   */
  lemma AddressMovesOnlyAfterReleaseOrExpiry(s: System, steps: seq<Step>, i: nat, j: nat)
    requires Init(s) && Possible(s, steps) && i < j < |Run(s, steps).log|
    requires var log := Run(s, steps).log;
      && log[i].Granted? && log[j].Granted? && log[i].ip == log[j].ip && log[i].mac != log[j].mac
      && Uncut(log, i, j)
    ensures var log := Run(s, steps).log;
      GaveUpBetween(log, i, j, log[i].mac) || log[j].at > log[i].expires
  {
    InitInv(s);
    RunInv(s, steps);
    ReleasedOrExpired(Run(s, steps), i, j);
  }

  /** In every reachable state an active in-range row equals the lease in memory, to the second. */
  lemma DiskNeverLies(s: System, steps: seq<Step>)
    requires Init(s) && Possible(s, steps)
    ensures var t := Run(s, steps);
      UniqueIPs(t.rows) && t.pool.Inverse() && DiskSound(t.pool, t.rows, t.now)
  {
    InitInv(s);
    RunInv(s, steps);
  }

  /**
   In any run, a restart with the range unchanged rebuilds a valid pool whose
   leases all were in memory before, each shortened by less than a second.
   */
  lemma RestartKeepsOnlyTrueLeases(s: System, steps: seq<Step>, at: int, q: Pool)
    requires Init(s) && Possible(s, steps) && at >= Run(s, steps).now && IsReload(q, Run(s, steps).rows, at)
    requires q.start == Run(s, steps).pool.start && q.end == Run(s, steps).pool.end
    ensures var p := Run(s, steps).pool;
      && q.Inverse() && q.InRange()
      && forall m :: m in q.byMAC ==>
           && m in p.byMAC && q.byMAC[m].ip == p.byMAC[m].ip
           && at < q.byMAC[m].expires <= p.byMAC[m].expires < q.byMAC[m].expires + SECOND
  {
    InitInv(s);
    RunInv(s, steps);
    var t := Run(s, steps);
    DiskSoundLater(t.pool, t.rows, t.now, at);
    RestartIsSubmap(t.pool, q, t.rows, at);
    ReloadIsSound(q, t.rows, at);
  }

  /**
   "Leases survive restarts", exactly. In any run, the latest grant to a client is
   in the pool a restart builds, whatever range it is given, if and only if the
   grant was saved, its address is in that range and its last second lies ahead.
   */
  lemma GrantSurvivesRestartIff(s: System, steps: seq<Step>, i: nat, t: int, q: Pool)
    requires Init(s) && Possible(s, steps) && i < |Run(s, steps).log| && Run(s, steps).log[i].Granted?
    requires Latest(Run(s, steps).log, i, |Run(s, steps).log|) && IsReload(q, Run(s, steps).rows, t)
    ensures var g := Run(s, steps).log[i];
      g.mac in q.byMAC && q.byMAC[g.mac].ip == g.ip <==>
        g.saved && q.start <= g.ip <= q.end && FormatTime(t) < FormatTime(g.expires)
  {
    InitInv(s);
    RunInv(s, steps);
    assert RowKept(Run(s, steps).rows, Run(s, steps).log[i]);
  }

  /** The same for a restart with the range unchanged, from the table as the grant finds it. */
  lemma FreshGrantSurvivesRestartIff(s: System, at: int, mac: string, wanted: IP, hostname: string, t: int, q: Pool)
    requires Inv(s) && s.now <= at <= t && Choose(s.pool, at, mac, wanted).Some?
    requires IsReload(q, Grant(s, at, mac, wanted, hostname).rows, t) && q.start == s.pool.start && q.end == s.pool.end
    ensures var a := Choose(s.pool, at, mac, wanted).value;
      mac in q.byMAC <==>
        && (forall m :: m in s.rows && s.rows[m].ip == a ==> m == mac)
        && s.pool.start <= a <= s.pool.end && FormatTime(t) < FormatTime(at + s.pool.duration)
  {
    hide Held, LogSafe, Ordered, RowsKept;
    SavedIff(s, at, mac, wanted, hostname);
    DiskSoundLater(s.pool, s.rows, s.now, at);
    FormatMonotone(at, t);
    if mac in s.rows && Loaded(s.rows[mac], at, s.pool.start, s.pool.end) {
      ActiveRowIsLive(s.pool, s.rows, at, mac);
    }
  }

  /** No range configured in the run reaches the largest address. */
  ghost predicate BelowTop(s: System, steps: seq<Step>) {
    s.pool.end < MAX_UINT32 && forall k :: 0 <= k < |steps| && steps[k].Restart? ==> steps[k].pool.end < MAX_UINT32
  }

  lemma NextInRange(s: System, step: Step)
    requires Inv(s) && Enabled(s, step) && s.pool.InRange() && s.pool.end < MAX_UINT32
    requires step.Restart? ==> step.pool.end < MAX_UINT32
    ensures Next(s, step).pool.InRange() && Next(s, step).pool.end < MAX_UINT32
  {
    match step
    case Discover(at, mac, requested, _) => AllocateKeepsInRange(s.pool, at, mac, requested);
    case Finish(at, id, _) => AllocateKeepsInRange(s.pool, at, s.handlers[id].mac, s.handlers[id].wanted);
    case Restart(at, pool) => ReloadIsSound(pool, s.rows, at);
    case _ =>
  }

  /** In every reachable state the leases lie in the range, and there are no more of them than addresses. */
  lemma {:induction false} RunInRange(s: System, steps: seq<Step>)
    requires Inv(s) && s.pool.InRange() && Possible(s, steps) && BelowTop(s, steps)
    ensures var p := Run(s, steps).pool; p.InRange() && |p.byMAC| == |p.byIP| <= p.end - p.start + 1
    decreases |steps|
  {
    if steps == [] {
      AtMostOneLeasePerAddress(s.pool);
    } else {
      NextInv(s, steps[0]);
      NextInRange(s, steps[0]);
      RunInRange(Next(s, steps[0]), steps[1..]);
    }
  }

  // ---------------------------------------------- interleaved REQUEST handlers

  /**
   What a REQUEST is answered, in whatever state its handler resumes: the wanted
   address exactly when it is the client's for the asking at that moment. Else a
   NAK, but after a positive Confirm an ACK with another address or with none.
   */
  lemma AnswerIff(s: System, h: Handler, at: int)
    requires s.pool.Inverse() && s.pool.start <= s.pool.end
    ensures var reply := ReplyOf(s, at, h);
      if DhcpServer.Granted(s.pool, at, h.mac, h.wanted)
      then ToUint(h.wanted).Some? && reply == DhcpServer.Ack(FromUint(ToUint(h.wanted).value))
      else if h.confirmed then reply.Ack? && (reply.ip == NIL || !Equal(reply.ip, h.wanted))
      else reply == DhcpServer.Nak
  {
    var given := match Choose(s.pool, at, h.mac, h.wanted) case None => NIL case Some(a) => FromUint(a);
    DhcpServer.GrantedIff(s.pool, at, h.mac, h.wanted);
    DhcpServer.RequestOutcome(s.pool, at, h.mac, h.wanted, given);
  }

  /** What can take address a from the client between Confirm and Allocate. */
  predicate Disturbs(e: Event, mac: string, a: uint32) {
    || e.Restarted?
    || (e.Released? && e.mac == mac)
    || (e.Granted? && e.ip == a && e.mac != mac)
  }

  predicate HasAddress(p: Pool, mac: string, a: uint32) {
    mac in p.byMAC && p.byMAC[mac].ip == a
  }

  lemma {:induction false} LogGrows(s: System, steps: seq<Step>)
    requires Possible(s, steps)
    ensures s.log <= Run(s, steps).log
    decreases |steps|
  {
    if steps != [] { LogGrows(Next(s, steps[0]), steps[1..]); }
  }

  lemma NextKeepsAddress(s: System, step: Step, mac: string, a: uint32)
    requires Inv(s) && Enabled(s, step) && HasAddress(s.pool, mac, a)
    requires forall k :: |s.log| <= k < |Next(s, step).log| ==> !Disturbs(Next(s, step).log[k], mac, a)
    ensures HasAddress(Next(s, step).pool, mac, a)
  {
    var t := Next(s, step);
    assert !step.Check? ==> |t.log| == |s.log| + 1 && !Disturbs(t.log[|s.log|], mac, a);
  }

  /** Undisturbed, the client keeps the address and its handler waits. */
  lemma {:induction false} UndisturbedRun(s: System, steps: seq<Step>, id: nat, mac: string, a: uint32)
    requires Inv(s) && Possible(s, steps) && HasAddress(s.pool, mac, a)
    requires forall k :: 0 <= k < |steps| && steps[k].Finish? ==> steps[k].id != id
    requires forall k :: |s.log| <= k < |Run(s, steps).log| ==> !Disturbs(Run(s, steps).log[k], mac, a)
    ensures var t := Run(s, steps);
      && Inv(t) && HasAddress(t.pool, mac, a)
      && (id in s.handlers ==> id in t.handlers && t.handlers[id] == s.handlers[id])
    decreases |steps|
  {
    hide Inv;
    if steps != [] {
      var next, t := Next(s, steps[0]), Run(s, steps);
      NextInv(s, steps[0]);
      LogGrows(next, steps[1..]);
      forall k | |s.log| <= k < |next.log| ensures !Disturbs(next.log[k], mac, a) { assert next.log[k] == t.log[k]; }
      assert steps[0].Restart? ==> Disturbs(next.log[|s.log|], mac, a);
      NextKeepsAddress(s, steps[0], mac, a);
      UndisturbedRun(next, steps[1..], id, mac, a);
    }
  }

  /**
   A confirmed REQUEST is acknowledged with exactly the wanted address, whatever
   else happens before its Allocate and however late that comes, unless the
   client releases, the address goes to someone else or the process restarts.
   */
  lemma ConfirmedIsAcknowledged(s: System, steps: seq<Step>, t1: int, id: nat, mac: string, wanted: IP, t2: int)
    requires Inv(s) && Enabled(s, Check(t1, id, mac, wanted)) && Confirm(s.pool, t1, mac, wanted)
    requires Possible(Next(s, Check(t1, id, mac, wanted)), steps)
    requires forall k :: 0 <= k < |steps| && steps[k].Finish? ==> steps[k].id != id
    requires var t := Run(Next(s, Check(t1, id, mac, wanted)), steps);
      forall k :: |s.log| <= k < |t.log| ==> !Disturbs(t.log[k], mac, ToUint(wanted).value)
    ensures var t := Run(Next(s, Check(t1, id, mac, wanted)), steps);
      && id in t.handlers && (t.now <= t2 ==> Enabled(t, Finish(t2, id, "")))
      && ReplyOf(t, t2, t.handlers[id]) == DhcpServer.Ack(FromUint(ToUint(wanted).value))
  {
    var u := Next(s, Check(t1, id, mac, wanted));
    NextInv(s, Check(t1, id, mac, wanted));
    UndisturbedRun(u, steps, id, mac, ToUint(wanted).value);
    var t := Run(u, steps);
    AnswerIff(t, t.handlers[id], t2);
  }

  /** No REQUEST handler of this number takes part in the run. */
  predicate Idle(steps: seq<Step>, id: nat) {
    forall k :: 0 <= k < |steps| ==>
      (steps[k].Check? ==> steps[k].id != id) && (steps[k].Finish? ==> steps[k].id != id)
  }

  lemma {:induction false} IdleRun(s: System, steps: seq<Step>, id: nat)
    requires Possible(s, steps) && Idle(steps, id) && id !in s.handlers
    ensures id !in Run(s, steps).handlers
    decreases |steps|
  {
    if steps != [] { IdleRun(Next(s, steps[0]), steps[1..], id); }
  }

  /**
   The whole handshake, between other clients: what was offered to a DISCOVER is
   acknowledged to a REQUEST that names it, whatever happened in between, unless
   the client released, the address went to someone else or the process restarted.
   */
  lemma OfferIsAcknowledged(s: System, discover: Step, steps: seq<Step>, t1: int, t2: int, id: nat,
                            req: DhcpServer.Packet)
    requires Inv(s) && discover.Discover? && discover.mac == req.mac && Enabled(s, discover)
    requires Choose(s.pool, discover.at, req.mac, discover.requested).Some?
    requires ToUint(req.requestedIP) == Choose(s.pool, discover.at, req.mac, discover.requested)
    requires ToUint(req.requestedIP) != Some(0)
    requires Possible(Next(s, discover), steps) && Idle(steps, id) && id !in s.handlers
    requires var t := Run(Next(s, discover), steps);
      forall k :: |s.log| < k < |t.log| ==> !Disturbs(t.log[k], req.mac, ToUint(req.requestedIP).value)
    ensures var t := Run(Next(s, discover), steps); var check := Check(t1, id, req.mac, DhcpServer.Wanted(req));
      && (t.now <= t1 ==> Enabled(t, check)) && id in Next(t, check).handlers
      && ReplyOf(Next(t, check), t2, Next(t, check).handlers[id])
           == DhcpServer.Ack(FromUint(ToUint(req.requestedIP).value))
  {
    hide Held, LogSafe, Ordered, RowsKept, DiskSound, UniqueIPs, Run, Possible;
    var a := ToUint(req.requestedIP).value;
    var first := Next(s, discover);
    NextInv(s, discover);
    UndisturbedRun(first, steps, id, req.mac, a);
    IdleRun(first, steps, id);
    var t := Run(first, steps);
    UnspecifiedIff(req.requestedIP);
    var u := Next(t, Check(t1, id, req.mac, DhcpServer.Wanted(req)));
    AnswerIff(u, u.handlers[id], t2);
  }

  lemma GrantIsMirrored(s: System, at: int, mac: string, wanted: IP, hostname: string)
    ensures var t := Grant(s, at, mac, wanted, hostname);
      && t.pool == Allocate(s.pool, at, mac, wanted) && t.handlers == s.handlers
      && t.rows == DhcpServer.Mirrored(s.rows, s.pool, at, mac, wanted, hostname)
  {}

  /**
   A REQUEST handled without interruption is its two critical sections in a row:
   same pool, same table, and an ACK in exactly the cases of BuildReply.
   */
  lemma RequestIsTwoSteps(s: System, t1: int, t2: int, id: nat, mac: string, wanted: IP, hostname: string)
    requires Inv(s) && id !in s.handlers
    ensures var u := Next(s, Check(t1, id, mac, wanted));
      && id in u.handlers
      && var t := Next(u, Finish(t2, id, hostname)); var reply := ReplyOf(u, t2, u.handlers[id]);
      && t.pool == Allocate(s.pool, t2, mac, wanted)
      && t.rows == DhcpServer.Mirrored(s.rows, s.pool, t2, mac, wanted, hostname)
      && t.handlers == s.handlers
      && (reply.Ack? <==> DhcpServer.Granted(s.pool, t2, mac, wanted))
      && (reply.Ack? ==> ToUint(wanted).Some? && reply == DhcpServer.Ack(FromUint(ToUint(wanted).value)))
  {
    hide Held, LogSafe, Ordered, RowsKept, DiskSound, UniqueIPs;
    hide Grant, ReplyOf, DhcpServer.Grantable, DhcpServer.WrapsOnto, DhcpServer.Mirrored;
    var u := Next(s, Check(t1, id, mac, wanted));
    assert u.handlers - {id} == s.handlers;
    AnswerIff(u, u.handlers[id], t2);
    if u.handlers[id].confirmed { DhcpServer.ConfirmedIsGrantable(s.pool, t1, t2, mac, wanted); }
    GrantIsMirrored(u.(handlers := s.handlers), t2, mac, wanted, hostname);
  }
}
