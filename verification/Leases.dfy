/**
 What the address pool computes, on values: the two indexes and the choice of
 an address. The class in LeasePool.dfy is proved against these functions.
 Instants are nanosecond counts.
 */
module Leases {
  import opened Basics
  import opened IPv4

  datatype Lease = Lease(mac: string, ip: uint32, expires: int)

  datatype Pool = Pool(start: uint32, end: uint32, duration: int,
                       byMAC: map<string, Lease>, byIP: map<uint32, Lease>)
  {
    /** The indexes hold the same leases, each under its own MAC and its own address. */
    ghost predicate Inverse() {
      && (forall m :: m in byMAC ==> byMAC[m].mac == m && byMAC[m].ip in byIP && byIP[byMAC[m].ip] == byMAC[m])
      && (forall a :: a in byIP ==> byIP[a].ip == a && byIP[a].mac in byMAC && byMAC[byIP[a].mac] == byIP[a])
    }

    ghost predicate InRange() {
      forall a :: a in byIP ==> start <= a <= end
    }

    /** Unused, or used by a lease that has run out. */
    predicate Free(a: uint32, now: int) {
      a !in byIP || now > byIP[a].expires
    }

    predicate IsFree(ip: IP, now: int) {
      ToUint(ip).Some? && start <= ToUint(ip).value <= end && Free(ToUint(ip).value, now)
    }

    /** No address of the configured range can be handed out. */
    ghost predicate Full(now: int) {
      forall a: uint32 :: start <= a <= end ==> !Free(a, now)
    }

    /** The search stops: its counter can pass `end`, or some address is free. */
    ghost predicate SearchEnds(now: int) {
      end < MAX_UINT32 || exists a: uint32 :: Free(a, now)
    }

    /** The calls of Allocate that come back. */
    ghost predicate AllocateEnds(now: int, mac: string, requested: IP) {
      mac in byMAC || IsFree(requested, now) || SearchEnds(now)
    }
  }

  /** The lowest free address of [n, hi]. */
  function Scan(p: Pool, now: int, n: uint32, hi: uint32): (r: Option<uint32>)
    ensures r.Some? ==> n <= r.value <= hi && p.Free(r.value, now)
    ensures forall k: uint32 :: n <= k <= hi && p.Free(k, now) ==> r.Some? && r.value <= k
    decreases hi - n
  {
    if n > hi then None
    else if p.Free(n, now) then Some(n)
    else if n == hi then None
    else Scan(p, now, n + 1, hi)
  }

  /**
   The lowest free address of the range. A range that reaches the largest
   uint32 is the exception: the counter wraps and the search goes on from zero.
   */
  function FirstFree(p: Pool, now: int): Option<uint32> {
    match Scan(p, now, p.start, p.end)
    case Some(a) => Some(a)
    case None =>
      if p.end == MAX_UINT32 && p.start > 0 then Scan(p, now, 0, p.start - 1) else None
  }

  /** Section 4.3.1 of RFC 2131: own address, else the requested one, else a free one. */
  function Choose(p: Pool, now: int, mac: string, requested: IP): Option<uint32> {
    if mac in p.byMAC then Some(p.byMAC[mac].ip)
    else if p.IsFree(requested, now) then ToUint(requested)
    else FirstFree(p, now)
  }

  /** Drops a former holder of `l.ip` and records the lease. */
  function Record(p: Pool, l: Lease): Pool {
    var kept := if l.ip in p.byIP && p.byIP[l.ip].mac != l.mac then p.byMAC - {p.byIP[l.ip].mac} else p.byMAC;
    p.(byMAC := kept[l.mac := l], byIP := p.byIP[l.ip := l])
  }

  function Allocate(p: Pool, now: int, mac: string, requested: IP): Pool {
    match Choose(p, now, mac, requested)
    case None => p
    case Some(a) => Record(p, Lease(mac, a, now + p.duration))
  }

  predicate Confirm(p: Pool, now: int, mac: string, ip: IP) {
    mac in p.byMAC && now <= p.byMAC[mac].expires && ToUint(ip) == Some(p.byMAC[mac].ip)
  }

  function Release(p: Pool, mac: string): Pool {
    if mac in p.byMAC
    then p.(byMAC := p.byMAC - {mac}, byIP := p.byIP - {p.byMAC[mac].ip})
    else p
  }

  /** Loads one persisted lease without looking at what is there already. */
  function Restore(p: Pool, mac: string, a: uint32, expires: int): Pool {
    if p.start <= a <= p.end
    then p.(byMAC := p.byMAC[mac := Lease(mac, a, expires)], byIP := p.byIP[a := Lease(mac, a, expires)])
    else p
  }

  // ---------------------------------------------------------------- indexes

  lemma AllocateKeepsInverse(p: Pool, now: int, mac: string, requested: IP)
    requires p.Inverse()
    ensures Allocate(p, now, mac, requested).Inverse()
  {}

  lemma ReleaseKeepsInverse(p: Pool, mac: string)
    requires p.Inverse()
    ensures Release(p, mac).Inverse() && mac !in Release(p, mac).byMAC
  {}

  /** The rows Restore may load: none may share only its MAC or only its address. */
  lemma RestoreKeepsInverseIff(p: Pool, mac: string, a: uint32, expires: int)
    requires p.Inverse() && p.start <= a <= p.end
    ensures Restore(p, mac, a, expires).Inverse()
       <==> (mac in p.byMAC ==> p.byMAC[mac].ip == a) && (a in p.byIP ==> p.byIP[a].mac == mac)
  {
    var q := Restore(p, mac, a, expires);
    if mac in p.byMAC && p.byMAC[mac].ip != a {
      var b := p.byMAC[mac].ip;
      assert b in q.byIP && q.byIP[b].mac == mac && q.byMAC[mac].ip == a;
    } else if a in p.byIP && p.byIP[a].mac != mac {
      var m := p.byIP[a].mac;
      assert m in q.byMAC && q.byMAC[m].ip == a && q.byIP[a].mac == mac;
    }
  }

  /** Pigeonhole: the pool never holds more leases than its range has addresses. */
  lemma AtMostOneLeasePerAddress(p: Pool)
    requires p.Inverse() && p.InRange() && p.start <= p.end
    ensures |p.byMAC| == |p.byIP| <= p.end - p.start + 1
  {
    BoundedSize(p.byIP.Keys, p.start, p.end);
    SameSize(p.byMAC.Keys, p.byIP.Keys, p);
  }

  lemma {:induction false} BoundedSize(s: set<uint32>, lo: int, hi: int)
    requires lo <= hi + 1 && forall a :: a in s ==> lo <= a <= hi
    ensures |s| <= hi - lo + 1
    decreases hi - lo
  {
    if lo > hi {
      assert s == {};
    } else {
      var rest := set a | a in s && a != hi;
      BoundedSize(rest, lo, hi - 1);
      assert s == if hi in s then rest + {hi} else rest;
    }
  }

  lemma {:induction false} SameSize(macs: set<string>, ips: set<uint32>, p: Pool)
    requires p.Inverse() && macs <= p.byMAC.Keys && ips <= p.byIP.Keys
    requires forall m :: m in macs ==> p.byMAC[m].ip in ips
    requires forall a :: a in ips ==> p.byIP[a].mac in macs
    ensures |macs| == |ips|
    decreases macs
  {
    if macs == {} {
      assert ips == {};
    } else {
      var m :| m in macs;
      var a := p.byMAC[m].ip;
      SameSize(macs - {m}, ips - {a}, p);
    }
  }

  // ------------------------------------------------------------- allocation

  /** The order in which Allocate prefers addresses, for a range ending below 2^32-1. */
  lemma AllocateOrder(p: Pool, now: int, mac: string, requested: IP)
    requires p.end < MAX_UINT32
    ensures var r := Choose(p, now, mac, requested); var wanted := ToUint(requested);
      if mac in p.byMAC then r == Some(p.byMAC[mac].ip)
      else if wanted.Some? && p.start <= wanted.value <= p.end
        && (wanted.value !in p.byIP || p.byIP[wanted.value].expires < now) then r == wanted
      else if r == None then
        forall a: uint32 :: p.start <= a <= p.end ==> a in p.byIP && now <= p.byIP[a].expires
      else
        && p.start <= r.value <= p.end && (r.value !in p.byIP || p.byIP[r.value].expires < now)
        && forall a: uint32 :: p.start <= a < r.value ==> a in p.byIP && now <= p.byIP[a].expires
  {
    assert forall a: uint32 :: p.Free(a, now) <==> a !in p.byIP || p.byIP[a].expires < now;
  }

  /** An address is refused exactly to a stranger facing a full range, unless the counter wraps. */
  lemma RefusedIffFull(p: Pool, now: int, mac: string, requested: IP)
    requires p.end < MAX_UINT32
    ensures Choose(p, now, mac, requested) == None <==> mac !in p.byMAC && p.Full(now)
  {}

  /**
   Where the range bound fails. A stranger is given an address outside the range
   exactly when the range is full and ends at 255.255.255.255; it is then the
   lowest free address of the whole space.
   */
  lemma StrangerOutOfRangeIff(p: Pool, now: int, mac: string, requested: IP)
    requires p.start <= p.end && mac !in p.byMAC && p.AllocateEnds(now, mac, requested)
    ensures var r := Choose(p, now, mac, requested);
      && (r.Some? && !(p.start <= r.value <= p.end) <==> p.Full(now) && p.end == MAX_UINT32)
      && (p.Full(now) && p.end == MAX_UINT32 ==> forall k: uint32 :: p.Free(k, now) ==> r.value <= k)
  {}

  /** The value of the search's counter after k rounds. */
  function Counter(start: uint32, k: nat): uint32 {
    if k == 0 then start else Increment(Counter(start, k - 1))
  }

  lemma IncrementIsModular(n: nat, c: uint32)
    requires c == n % 0x1_0000_0000
    ensures Increment(c) == (n + 1) % 0x1_0000_0000
  {
    var q := n / 0x1_0000_0000;
    assert n + 1 == q * 0x1_0000_0000 + (c + 1);
  }

  lemma {:induction false} CounterIsModular(start: uint32, k: nat)
    ensures Counter(start, k) == (start + k) % 0x1_0000_0000
  {
    hide Increment;
    if k > 0 {
      CounterIsModular(start, k - 1);
      IncrementIsModular(start + k - 1, Counter(start, k - 1));
    }
  }

  /** The counter comes by every address. */
  lemma CounterReaches(start: uint32, a: uint32) returns (k: nat)
    ensures Counter(start, k) == a
  {
    k := (a - start) % 0x1_0000_0000;
    CounterIsModular(start, k);
  }

  /** The loop goes on in every round exactly when the search is not one of those that end. */
  lemma SearchEndsIff(p: Pool, now: int)
    requires p.start <= p.end
    ensures (forall k: nat :: Counter(p.start, k) <= p.end && !p.Free(Counter(p.start, k), now))
       <==> !p.SearchEnds(now)
  {
    if p.SearchEnds(now) {
      var a: uint32 :| a > p.end || p.Free(a, now);
      var k := CounterReaches(p.start, a);
      assert !(Counter(p.start, k) <= p.end && !p.Free(Counter(p.start, k), now));
    }
  }

  /** Every lease stays in a range that ends below 2^32-1. */
  lemma AllocateKeepsInRange(p: Pool, now: int, mac: string, requested: IP)
    requires p.Inverse() && p.InRange() && p.start <= p.end && p.end < MAX_UINT32
    ensures Allocate(p, now, mac, requested).InRange()
  {}

  /** A live lease of another client survives an allocation unchanged. */
  lemma AllocateSparesLive(p: Pool, now: int, mac: string, requested: IP, other: string)
    requires p.Inverse() && other in p.byMAC && other != mac && now <= p.byMAC[other].expires
    ensures Choose(p, now, mac, requested) != Some(p.byMAC[other].ip)
    ensures var q := Allocate(p, now, mac, requested);
      other in q.byMAC && q.byMAC[other] == p.byMAC[other]
  {}
}
