/** Starting Mode B: settings and persisted leases become a server with a valid pool. */
module DhcpService {
  import opened Basics
  import opened IPv4
  import opened LeaseStore
  import Leases
  import LeasePool
  import DhcpServer
  import DhcpSystem

  const MINUTE: int := 60_000_000_000

  function LeaseDuration(minutes: int): int {
    if minutes <= 0 then 60 * MINUTE else minutes * MINUTE
  }

  /** NIL stands for a setting that is missing or does not parse. */
  predicate Configurable(start: IP, end: IP) {
    && start != NIL && end != NIL && ToUint(start).Some? && ToUint(end).Some?
    && ToUint(start).value <= ToUint(end).value
  }

  predicate Distinct(leases: seq<StoredLease>) {
    forall i, j :: 0 <= i < j < |leases| ==> leases[i].mac != leases[j].mac && leases[i].row.ip != leases[j].row.ip
  }

  predicate Fits(p: Leases.Pool, l: StoredLease) { p.start <= l.row.ip <= p.end }

  ghost predicate HasMac(leases: seq<StoredLease>, mac: string) {
    exists l :: l in leases && l.mac == mac
  }

  /** The pool holds exactly the given leases that lie in its range. */
  ghost predicate Holds(p: Leases.Pool, leases: seq<StoredLease>) {
    && p.Inverse()
    && (forall m :: m in p.byMAC ==> HasMac(leases, m))
    && (forall l :: l in leases && Fits(p, l) ==>
          l.mac in p.byMAC && p.byMAC[l.mac] == DhcpSystem.RestoredLease(l.mac, l.row))
    && (forall l :: l in leases && !Fits(p, l) ==> l.mac !in p.byMAC)
  }

  lemma NewIsUnheld(p: Leases.Pool, leases: seq<StoredLease>, one: StoredLease)
    requires Holds(p, leases)
    requires forall l :: l in leases ==> l.mac != one.mac && l.row.ip != one.row.ip
    ensures one.mac !in p.byMAC && (Fits(p, one) ==> one.row.ip !in p.byIP)
  {
    assert forall a :: a in p.byIP ==> HasMac(leases, p.byIP[a].mac);
  }

  /** A lease with a new MAC and a new address can be loaded on top. */
  lemma HoldsOneMore(p: Leases.Pool, leases: seq<StoredLease>, one: StoredLease)
    requires Holds(p, leases)
    requires forall l :: l in leases ==> l.mac != one.mac && l.row.ip != one.row.ip
    ensures Holds(Leases.Restore(p, one.mac, one.row.ip, ParseTime(one.row.expires)), leases + [one])
  {
    var q := Leases.Restore(p, one.mac, one.row.ip, ParseTime(one.row.expires));
    NewIsUnheld(p, leases, one);
    if Fits(p, one) {
      Leases.RestoreKeepsInverseIff(p, one.mac, one.row.ip, ParseTime(one.row.expires));
      assert q.byMAC == p.byMAC[one.mac := DhcpSystem.RestoredLease(one.mac, one.row)];
    }
    forall m | m in q.byMAC ensures HasMac(leases + [one], m) {
      HasMacOneMore(leases, one, m);
    }
    forall l | l in leases + [one]
      ensures if Fits(q, l) then l.mac in q.byMAC && q.byMAC[l.mac] == DhcpSystem.RestoredLease(l.mac, l.row)
              else l.mac !in q.byMAC
    {
      OldOrNew(leases, one, l);
      assert Fits(q, l) <==> Fits(p, l);
    }
    hide HasMac, Leases.Restore, Fits;
  }

  lemma OldOrNew(leases: seq<StoredLease>, one: StoredLease, l: StoredLease)
    requires l in leases + [one]
    ensures l in leases || l == one
  {}

  lemma HasMacOneMore(leases: seq<StoredLease>, one: StoredLease, mac: string)
    ensures HasMac(leases, mac) || mac == one.mac ==> HasMac(leases + [one], mac)
  {
    assert one in leases + [one];
    if l :| l in leases && l.mac == mac { assert l in leases + [one]; }
  }

  /** Feeds persisted leases into an empty pool. */
  method RestoreAll(p: LeasePool.LeasePool, leases: seq<StoredLease>)
    requires p.Valid() && p.byMAC == map[] && Distinct(leases)
    modifies p
    ensures p.Valid() && Holds(p.Snapshot(), leases)
  {
    for k := 0 to |leases|
      invariant p.Valid() && Holds(p.Snapshot(), leases[..k])
    {
      var StoredLease(mac, row) := leases[k];
      FromToUint(row.ip);
      HoldsOneMore(p.Snapshot(), leases[..k], leases[k]);
      p.Restore(mac, FromUint(row.ip), ParseTime(row.expires));
      assert leases[..k + 1] == leases[..k] + [leases[k]];
    }
    assert leases[..|leases|] == leases;
  }

  /** Loading the active rows is reloading the table. */
  lemma HoldsIsReload(p: Leases.Pool, leases: seq<StoredLease>, rows: Rows, now: int)
    requires p.start <= p.end && Holds(p, leases)
    requires forall k :: 0 <= k < |leases| ==>
      leases[k].mac in rows && leases[k].row == rows[leases[k].mac] && Active(leases[k].row, now)
    requires forall m :: m in rows && Active(rows[m], now) ==> StoredLease(m, rows[m]) in leases
    ensures DhcpSystem.IsReload(p, rows, now)
  {}

  /**
   A server is built exactly when the range is usable, and its pool is the one
   the persisted rows determine: valid, with every active row of the range.
   */
  method BuildDHCPServer(start: IP, end: IP, leaseMinutes: int, table: LeaseTable, now: int)
    returns (r: Option<DhcpServer.DHCPServer>)
    requires UniqueIPs(table.rows)
    ensures r.Some? <==> Configurable(start, end)
    ensures r.Some? ==>
      && r.value.pool.Valid() && r.value.pool.store == table
      && r.value.pool.start == ToUint(start).value && r.value.pool.end == ToUint(end).value
      && r.value.pool.duration == (if leaseMinutes <= 0 then 3600 else 60 * leaseMinutes) * 1_000_000_000
      && DhcpSystem.IsReload(r.value.pool.Snapshot(), table.rows, now)
  {
    if start == NIL || end == NIL {
      return None;
    }
    var pool := LeasePool.NewLeasePool(start, end, LeaseDuration(leaseMinutes), table);
    if pool == None {
      return None;
    }
    var p := pool.value;
    var leases := table.ActiveLeases(now);
    RestoreAll(p, leases);
    HoldsIsReload(p.Snapshot(), leases, table.rows, now);
    var server := new DhcpServer.DHCPServer(p);
    return Some(server);
  }
}
