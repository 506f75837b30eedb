/** The address pool itself: two maps updated in place and mirrored to a table. */
module LeasePool {
  import opened Basics
  import opened IPv4
  import opened LeaseStore
  import Leases

  type Lease = Leases.Lease

  class LeasePool {
    const start: uint32
    const end: uint32
    const duration: int
    const store: LeaseTable?
    var byMAC: map<string, Lease>
    var byIP: map<uint32, Lease>

    function Snapshot(): Leases.Pool
      reads this
    {
      Leases.Pool(start, end, duration, byMAC, byIP)
    }

    ghost predicate Valid()
      reads this
    {
      start <= end && Snapshot().Inverse()
    }

    /** The range has been checked by NewLeasePool below. */
    constructor (s: uint32, e: uint32, duration: int, store: LeaseTable?)
      requires s <= e
      ensures Valid() && this.store == store
      ensures Snapshot() == Leases.Pool(s, e, duration, map[], map[])
    {
      this.start, this.end, this.duration, this.store := s, e, duration, store;
      this.byMAC, this.byIP := map[], map[];
    }

    /** Pre-loads a persisted lease; addresses outside the range are ignored. */
    method Restore(mac: string, ip: IP, expires: int)
      modifies this
      ensures Snapshot() == match ToUint(ip)
        case None => old(Snapshot())
        case Some(a) => Leases.Restore(old(Snapshot()), mac, a, expires)
    {
      var n := ToUint(ip);
      if n == None || n.value < start || n.value > end {
        return;
      }
      var l := Leases.Lease(mac, n.value, expires);
      byMAC := byMAC[mac := l];
      byIP := byIP[n.value := l];
    }

    method FirstFree(now: int) returns (n: uint32, found: bool, ghost probes: nat)
      requires start <= end && Snapshot().SearchEnds(now)
      ensures Leases.FirstFree(Snapshot(), now) == if found then Some(n) else None
      ensures found ==> Snapshot().Free(n, now)
      ensures !found ==> Snapshot().Full(now)
      ensures end < MAX_UINT32 ==> probes <= end - start + 1
    {
      n, probes := start, 0;
      ghost var wrapped := false;
      ghost var pool := Snapshot();
      while n <= end
        invariant !wrapped ==> start <= n <= end + 1 && probes == n - start
        invariant !wrapped ==> forall k: uint32 :: start <= k < n ==> !pool.Free(k, now)
        invariant wrapped ==> end == MAX_UINT32 && pool.Full(now) && n <= start
        invariant wrapped ==> forall k: uint32 :: 0 <= k < n ==> !pool.Free(k, now)
        decreases !wrapped, end - n
      {
        if n !in byIP || now > byIP[n].expires {
          ScanFinds(pool, now, n, wrapped);
          found := true;
          return;
        }
        if n == MAX_UINT32 {
          wrapped := true;
        }
        n := Increment(n);
        probes := probes + 1;
      }
      n, found := 0, false;
    }

    method Allocate(mac: string, requested: IP, hostname: string, now: int) returns (r: IP)
      requires Valid() && Snapshot().AllocateEnds(now, mac, requested)
      modifies this, store
      ensures Valid()
      ensures Snapshot() == Leases.Allocate(old(Snapshot()), now, mac, requested)
      ensures r == match Leases.Choose(old(Snapshot()), now, mac, requested)
        case None => NIL
        case Some(a) => FromUint(a)
      ensures store != null ==> store.rows == match Leases.Choose(old(Snapshot()), now, mac, requested)
        case None => old(store.rows)
        case Some(a) => Upsert(old(store.rows), mac, Row(a, hostname, FormatTime(now + duration)))
    {
      Leases.AllocateKeepsInverse(Snapshot(), now, mac, requested);
      hide Leases.FirstFree, Leases.Pool.Inverse;
      var ip: uint32;
      if mac in byMAC {
        ip := byMAC[mac].ip;
      } else if Snapshot().IsFree(requested, now) {
        ip := ToUint(requested).value;
      } else {
        var free, ok, _ := FirstFree(now);
        if !ok {
          return NIL;
        }
        ip := free;
      }
      var expires := now + duration;
      if ip in byIP && byIP[ip].mac != mac {
        byMAC := byMAC - {byIP[ip].mac};
      }
      var l := Leases.Lease(mac, ip, expires);
      byMAC := byMAC[mac := l];
      byIP := byIP[ip := l];
      if store != null {
        // A refused row must not break the assignment of the address.
        var _ := store.UpsertLease(mac, ip, hostname, expires);
      }
      return FromUint(ip);
    }

    method Confirm(mac: string, ip: IP, now: int) returns (holds: bool)
      ensures holds <==> Leases.Confirm(Snapshot(), now, mac, ip)
      ensures holds <==> mac in byMAC && now <= byMAC[mac].expires && ToUint(ip) == Some(byMAC[mac].ip)
    {
      if mac !in byMAC || now > byMAC[mac].expires {
        return false;
      }
      var n := ToUint(ip);
      return n != None && n.value == byMAC[mac].ip;
    }

    method Release(mac: string)
      requires Valid()
      modifies this, store
      ensures Valid()
      ensures Snapshot() == Leases.Release(old(Snapshot()), mac)
      ensures store != null ==>
        store.rows == if mac in old(byMAC) then old(store.rows) - {mac} else old(store.rows)
    {
      Leases.ReleaseKeepsInverse(Snapshot(), mac);
      if mac in byMAC {
        var l := byMAC[mac];
        byMAC := byMAC - {mac};
        byIP := byIP - {l.ip};
        if store != null {
          store.DeleteLease(mac);
        }
      }
    }
  }

  /** What the counter finds is what the specification calls the first free address. */
  lemma ScanFinds(p: Leases.Pool, now: int, n: uint32, wrapped: bool)
    requires p.start <= p.end && p.Free(n, now) && n <= p.end
    requires !wrapped ==> p.start <= n && forall k: uint32 :: p.start <= k < n ==> !p.Free(k, now)
    requires wrapped ==> p.end == MAX_UINT32 && p.Full(now)
    requires wrapped ==> forall k: uint32 :: 0 <= k < n ==> !p.Free(k, now)
    ensures Leases.FirstFree(p, now) == Some(n)
  {}

  /** Refuses addresses that are not IPv4 and a range turned round. */
  method NewLeasePool(start: IP, end: IP, duration: int, store: LeaseTable?) returns (r: Option<LeasePool>)
    ensures r == None <==>
      ToUint(start) == None || ToUint(end) == None || ToUint(start).value > ToUint(end).value
    ensures r.Some? ==> fresh(r.value) && r.value.Valid() && r.value.store == store
    ensures r.Some? ==>
      r.value.Snapshot() == Leases.Pool(ToUint(start).value, ToUint(end).value, duration, map[], map[])
  {
    var s, e := ToUint(start), ToUint(end);
    if s == None || e == None || s.value > e.value {
      return None;
    }
    var p := new LeasePool(s.value, e.value, duration, store);
    return Some(p);
  }
}
