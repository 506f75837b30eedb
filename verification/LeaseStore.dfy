/**
 The `dhcp_leases` table: MAC is the primary key, the address is UNIQUE.
 Time is a nanosecond count in memory and a whole number of seconds on disk.
 */
module LeaseStore {
  import opened Basics

  /** The columns of a row beside its key. `expires` is in seconds. */
  datatype Row = Row(ip: uint32, hostname: string, expires: int)

  type Rows = map<string, Row>

  /** A whole row, as a query returns it. */
  datatype StoredLease = StoredLease(mac: string, row: Row)

  const SECOND: int := 1_000_000_000

  /** The text form of a time keeps whole seconds only. */
  function FormatTime(t: int): int { t / 1_000_000_000 }

  function ParseTime(s: int): int { s * 1_000_000_000 }

  ghost predicate UniqueIPs(rows: Rows) {
    forall m1, m2 :: m1 in rows && m2 in rows && rows[m1].ip == rows[m2].ip ==> m1 == m2
  }

  /** Some other client's row holds the address. */
  predicate Clash(rows: Rows, mac: string, ip: uint32) {
    exists m :: m in rows && m != mac && rows[m].ip == ip
  }

  /** INSERT ... ON CONFLICT (mac) DO UPDATE: a clash on the address changes nothing. */
  function Upsert(rows: Rows, mac: string, row: Row): Rows {
    if Clash(rows, mac, row.ip) then rows else rows[mac := row]
  }

  /** WHERE expires_at > now, compared in the stored format. */
  predicate Active(row: Row, now: int) { row.expires > FormatTime(now) }

  /** In stored seconds or not: an active row is one whose end lies ahead. */
  lemma ActiveIff(row: Row, now: int)
    ensures Active(row, now) <==> now < row.expires * 1_000_000_000
  {}

  /** The stored end is the second in which the lease ends. */
  lemma StoredSecond(t: int)
    ensures FormatTime(t) * 1_000_000_000 <= t < (FormatTime(t) + 1) * 1_000_000_000
    ensures FormatTime(ParseTime(t)) == t
  {}

  lemma FormatMonotone(t1: int, t2: int)
    ensures t1 <= t2 ==> FormatTime(t1) <= FormatTime(t2)
  {}

  lemma UpsertKeepsUnique(rows: Rows, mac: string, row: Row)
    ensures UniqueIPs(rows) ==> UniqueIPs(Upsert(rows, mac, row))
  {}

  class LeaseTable {
    var rows: Rows

    constructor ()
      ensures rows == map[]
    {
      rows := map[];
    }

    /** Creates or refreshes the row of a MAC; false is the constraint error. */
    method UpsertLease(mac: string, ip: uint32, hostname: string, expiresAt: int) returns (ok: bool)
      modifies this
      ensures rows == Upsert(old(rows), mac, Row(ip, hostname, FormatTime(expiresAt)))
      ensures ok <==> !Clash(old(rows), mac, ip)
      ensures ok <==> forall m :: m in old(rows) && old(rows)[m].ip == ip ==> m == mac
      ensures rows == if ok then old(rows)[mac := Row(ip, hostname, FormatTime(expiresAt))] else old(rows)
      ensures old(UniqueIPs(rows)) ==> UniqueIPs(rows)
    {
      UpsertKeepsUnique(rows, mac, Row(ip, hostname, FormatTime(expiresAt)));
      ok := !Clash(rows, mac, ip);
      if ok {
        rows := rows[mac := Row(ip, hostname, FormatTime(expiresAt))];
      }
    }

    method DeleteLease(mac: string)
      modifies this
      ensures rows == old(rows) - {mac}
    {
      rows := rows - {mac};
    }

    /** All rows that have not expired yet, each once, in no particular order. */
    method ActiveLeases(now: int) returns (leases: seq<StoredLease>)
      ensures forall k :: 0 <= k < |leases| ==>
        leases[k].mac in rows && leases[k].row == rows[leases[k].mac] && Active(leases[k].row, now)
      ensures forall m :: m in rows && Active(rows[m], now) ==> StoredLease(m, rows[m]) in leases
      ensures forall i, k :: 0 <= i < k < |leases| ==> leases[i].mac != leases[k].mac
    {
      leases := [];
      var rest := rows.Keys;
      while rest != {}
        invariant rest <= rows.Keys
        invariant forall k :: 0 <= k < |leases| ==>
          leases[k].mac in rows && leases[k].mac !in rest
          && leases[k].row == rows[leases[k].mac] && Active(leases[k].row, now)
        invariant forall m :: m in rows && m !in rest && Active(rows[m], now) ==> StoredLease(m, rows[m]) in leases
        invariant forall i, k :: 0 <= i < k < |leases| ==> leases[i].mac != leases[k].mac
        decreases rest
      {
        var m :| m in rest;
        rest := rest - {m};
        if Active(rows[m], now) {
          leases := leases + [StoredLease(m, rows[m])];
        }
      }
    }
  }
}
