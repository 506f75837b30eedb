/**
 The DISCOVER/REQUEST/RELEASE machine of the authoritative DHCP server. Of a
 packet it keeps what the machine looks at; of a reply, its type and address.
 */
module DhcpServer {
  import opened Basics
  import opened IPv4
  import Leases
  import LeasePool
  import opened LeaseStore

  datatype MessageType = Discover | Request | Release | Decline | OtherType

  datatype Packet = Packet(bootRequest: bool, messageType: MessageType, mac: string,
                           requestedIP: IP, clientIP: IP, hostname: string)

  datatype Reply = Offer(ip: IP) | Ack(ip: IP) | Nak

  /** The address a REQUEST is about: the option, or the client's own for a renewal. */
  function Wanted(req: Packet): IP {
    if req.requestedIP == NIL || IsUnspecified(req.requestedIP) then req.clientIP else req.requestedIP
  }

  /** What a REQUEST is answered, given Confirm's verdict and the address Allocate returned. */
  function Answer(confirmed: bool, wanted: IP, given: IP): Reply {
    if confirmed || (given != NIL && Equal(given, wanted)) then Ack(given) else Nak
  }

  /** The requested address is the client's for the asking. */
  predicate Grantable(p: Leases.Pool, now: int, mac: string, wanted: IP) {
    if mac in p.byMAC then ToUint(wanted) == Some(p.byMAC[mac].ip) else p.IsFree(wanted, now)
  }

  /** The search wraps past 255.255.255.255 onto the very address that was requested. */
  predicate WrapsOnto(p: Leases.Pool, now: int, mac: string, wanted: IP) {
    && mac !in p.byMAC && ToUint(wanted).Some?
    && !(p.start <= ToUint(wanted).value <= p.end)
    && Leases.FirstFree(p, now) == ToUint(wanted)
  }

  predicate Granted(p: Leases.Pool, now: int, mac: string, wanted: IP) {
    Grantable(p, now, mac, wanted) || WrapsOnto(p, now, mac, wanted)
  }

  /** After an ACK the client holds the wanted address for a full lease time; after a NAK it holds another or none. */
  lemma HoldsAfterRequest(p: Leases.Pool, now: int, mac: string, wanted: IP)
    requires p.Inverse() && p.start <= p.end
    ensures var q := Leases.Allocate(p, now, mac, wanted);
      if Granted(p, now, mac, wanted)
      then ToUint(wanted).Some? && mac in q.byMAC
           && q.byMAC[mac] == Leases.Lease(mac, ToUint(wanted).value, now + p.duration)
      else mac in q.byMAC ==> ToUint(wanted) != Some(q.byMAC[mac].ip)
  {}

  /** The pool's answer is the wanted address exactly in the cases section 4.3.2 of RFC 2131 describes. */
  lemma GrantedIff(p: Leases.Pool, now: int, mac: string, wanted: IP)
    requires p.Inverse() && p.start <= p.end
    ensures var r := Leases.Choose(p, now, mac, wanted);
      r.Some? && ToUint(wanted) == r <==> Granted(p, now, mac, wanted)
  {}

  lemma WrapsOntoOnlyAtTheTop(p: Leases.Pool, now: int, mac: string, wanted: IP)
    requires p.start <= p.end && WrapsOnto(p, now, mac, wanted)
    ensures p.end == MAX_UINT32 && p.Full(now)
  {}

  /** A confirmed client is given the address it holds. */
  lemma ConfirmedIsGrantable(p: Leases.Pool, t1: int, t2: int, mac: string, wanted: IP)
    requires Leases.Confirm(p, t1, mac, wanted)
    ensures Grantable(p, t2, mac, wanted)
    ensures Leases.Choose(p, t2, mac, wanted) == ToUint(wanted)
  {}

  /**
   The handshake. A client that was offered a and asks for it in the option is
   granted it, whatever its ciaddr and however late it comes. Only 0.0.0.0 does
   not count as an address there.
   */
  lemma OfferIsGrantedIff(p: Leases.Pool, t1: int, t2: int, asked: IP, a: uint32, req: Packet)
    requires p.Inverse() && Leases.Choose(p, t1, req.mac, asked) == Some(a)
    requires ToUint(req.requestedIP) == Some(a)
    ensures Granted(Leases.Allocate(p, t1, req.mac, asked), t2, req.mac, Wanted(req))
      <==> a != 0 || ToUint(req.clientIP) == Some(0)
  {
    UnspecifiedIff(req.requestedIP);
  }

  /** A renewal: without an address in the option the client asks for the one it uses, and keeps it. */
  lemma RenewalIsGranted(p: Leases.Pool, now: int, req: Packet)
    requires p.Inverse() && req.mac in p.byMAC && ToUint(req.clientIP) == Some(p.byMAC[req.mac].ip)
    requires req.requestedIP == [] || req.requestedIP == [0, 0, 0, 0]
    ensures Granted(p, now, req.mac, Wanted(req))
  {
    EqualIffSameAddress(0, req.requestedIP);
  }

  /** The table after Allocate: the chosen address is written through, a clash is ignored. */
  function Mirrored(rows: Rows, p: Leases.Pool, now: int, mac: string, wanted: IP, hostname: string): Rows {
    match Leases.Choose(p, now, mac, wanted)
    case None => rows
    case Some(a) => Upsert(rows, mac, Row(a, hostname, FormatTime(now + p.duration)))
  }

  class DHCPServer {
    const pool: LeasePool.LeasePool

    constructor (pool: LeasePool.LeasePool)
      ensures this.pool == pool
    {
      this.pool := pool;
    }

    /**
     A REQUEST, handled without another handler in between. The clock reads t1
     when Confirm looks at it and t2 when Allocate does.
     */
    method HandleRequest(req: Packet, t1: int, t2: int) returns (reply: Reply)
      requires pool.Valid() && pool.Snapshot().AllocateEnds(t2, req.mac, Wanted(req))
      modifies pool, pool.store
      ensures pool.Valid()
      ensures pool.Snapshot() == Leases.Allocate(old(pool.Snapshot()), t2, req.mac, Wanted(req))
      ensures pool.store != null ==>
             pool.store.rows
               == Mirrored(old(pool.store.rows), old(pool.Snapshot()), t2, req.mac, Wanted(req), req.hostname)
      ensures !reply.Offer?
      // With an address in the option it is the subject, whatever ciaddr says; without one, ciaddr is.
      ensures req.requestedIP != NIL && !IsUnspecified(req.requestedIP) ==>
        && (reply.Ack? <==> Granted(old(pool.Snapshot()), t2, req.mac, req.requestedIP))
        && (reply.Ack? ==> ToUint(req.requestedIP) == ToUint(reply.ip))
      ensures req.requestedIP == NIL || IsUnspecified(req.requestedIP) ==>
        && (reply.Ack? <==> Granted(old(pool.Snapshot()), t2, req.mac, req.clientIP))
        && (reply.Ack? ==> ToUint(req.clientIP) == ToUint(reply.ip))
      ensures reply.Ack? <==> Granted(old(pool.Snapshot()), t2, req.mac, Wanted(req))
      ensures reply.Ack? ==> ToUint(Wanted(req)).Some? && reply.ip == FromUint(ToUint(Wanted(req)).value)
    {
      hide Leases.Choose, Leases.Allocate, Grantable, WrapsOnto;
      ghost var before := pool.Snapshot();
      var mac := req.mac;
      var requested := req.requestedIP;
      if requested == NIL || IsUnspecified(requested) {
        requested := req.clientIP;
      }
      GrantedIff(before, t2, mac, requested);
      var confirmed := pool.Confirm(mac, requested, t1);
      if !confirmed {
        var ip := pool.Allocate(mac, requested, req.hostname, t2);
        RequestOutcome(before, t2, mac, requested, ip);
        if ip != NIL && Equal(ip, requested) {
          FromToUint(ToUint(requested).value);
          return Ack(ip);
        }
        return Nak;
      }
      ConfirmedIsGrantable(before, t1, t2, mac, requested);
      var ip := pool.Allocate(mac, requested, req.hostname, t2);
      RequestOutcome(before, t2, mac, requested, ip);
      FromToUint(ToUint(requested).value);
      return Ack(ip);
    }

    /** One packet. */
    method BuildReply(req: Packet, t1: int, t2: int) returns (reply: Option<Reply>)
      requires pool.Valid()
      requires req.messageType == Discover ==> pool.Snapshot().AllocateEnds(t2, req.mac, req.requestedIP)
      requires req.messageType == Request ==> pool.Snapshot().AllocateEnds(t2, req.mac, Wanted(req))
      modifies pool, pool.store
      ensures pool.Valid()
      // Anything but a boot request of a known type is dropped without a trace.
      ensures !req.bootRequest || req.messageType == OtherType ==>
        reply == None && pool.Snapshot() == old(pool.Snapshot())
        && (pool.store != null ==> pool.store.rows == old(pool.store.rows))
      // DISCOVER: an offer, or silence when there is nothing to offer.
      ensures req.bootRequest && req.messageType == Discover ==>
        && pool.Snapshot() == Leases.Allocate(old(pool.Snapshot()), t2, req.mac, req.requestedIP)
        && reply == (match Leases.Choose(old(pool.Snapshot()), t2, req.mac, req.requestedIP)
             case None => None
             case Some(a) => Some(Offer(FromUint(a))))
        && (pool.store != null ==>
             pool.store.rows
               == Mirrored(old(pool.store.rows), old(pool.Snapshot()), t2, req.mac, req.requestedIP, req.hostname))
      // REQUEST: ACK with the wanted address or NAK; after an ACK the client holds it until t2 + duration.
      ensures req.bootRequest && req.messageType == Request ==>
        && pool.Snapshot() == Leases.Allocate(old(pool.Snapshot()), t2, req.mac, Wanted(req))
        && reply.Some? && !reply.value.Offer?
        && (reply.value.Ack? <==> Granted(old(pool.Snapshot()), t2, req.mac, Wanted(req)))
        && (reply.value.Ack? ==>
             ToUint(Wanted(req)).Some? && reply.value.ip == FromUint(ToUint(Wanted(req)).value))
        && (pool.store != null ==>
             pool.store.rows
               == Mirrored(old(pool.store.rows), old(pool.Snapshot()), t2, req.mac, Wanted(req), req.hostname))
      // RELEASE and DECLINE alike: the client holds nothing, nobody answers.
      ensures req.bootRequest && (req.messageType == Release || req.messageType == Decline) ==>
        && reply == None && pool.Snapshot() == Leases.Release(old(pool.Snapshot()), req.mac)
        && (pool.store != null ==>
             pool.store.rows
               == if req.mac in old(pool.byMAC) then old(pool.store.rows) - {req.mac} else old(pool.store.rows))
    {
      if !req.bootRequest {
        return None;
      }
      match req.messageType
      case Discover =>
        var ip := pool.Allocate(req.mac, req.requestedIP, req.hostname, t2);
        return if ip == NIL then None else Some(Offer(ip));
      case Request =>
        var answer := HandleRequest(req, t1, t2);
        return Some(answer);
      case Release =>
        pool.Release(req.mac);
        return None;
      case Decline =>
        pool.Release(req.mac);
        return None;
      case OtherType =>
        return None;
    }
  }

  /** Comparing byte slices as the server does is comparing the chosen address. */
  lemma RequestOutcome(p: Leases.Pool, now: int, mac: string, wanted: IP, ip: IP)
    requires ip == match Leases.Choose(p, now, mac, wanted) case None => NIL case Some(a) => FromUint(a)
    ensures ip != NIL && Equal(ip, wanted) <==>
      Leases.Choose(p, now, mac, wanted).Some? && ToUint(wanted) == Leases.Choose(p, now, mac, wanted)
    ensures ip != NIL && Equal(ip, wanted) ==> ToUint(wanted).Some? && ip == FromUint(ToUint(wanted).value)
  {
    match Leases.Choose(p, now, mac, wanted)
    case None =>
    case Some(a) => EqualIffSameAddress(a, wanted);
  }
}
