/**
 The passive watch for foreign DHCP servers: a table of last sightings pruned
 at every query, against the full record of what was observed and asked.
 */
module Observer {
  import opened Basics
  import opened Ordering

  /** What Observe looks at; a server identifier that is nil or unspecified is None. */
  datatype Message = Message(bootRequest: bool, request: bool, server: Option<string>)

  datatype ServerSighting = ServerSighting(ip: string, lastSeen: int)

  /** The unpruned record. */
  datatype Event = Seen(ip: string, at: int) | Asked(at: int, window: int)

  type Table = map<string, int>

  // ----------------------------------------------------------- specification

  function Prune(t: Table, cutoff: int): Table {
    map ip | ip in t && t[ip] >= cutoff :: t[ip]
  }

  function TableOf(trace: seq<Event>): Table {
    if trace == [] then map[]
    else
      var t := TableOf(trace[..|trace| - 1]);
      match trace[|trace| - 1]
      case Seen(ip, at) => t[ip := at]
      case Asked(at, window) => Prune(t, at - window)
  }

  /** When a server was last observed, pruning aside. */
  function LastSeen(trace: seq<Event>, ip: string): Option<int> {
    if trace == [] then None
    else
      match trace[|trace| - 1]
      case Seen(i, at) => if i == ip then Some(at) else LastSeen(trace[..|trace| - 1], ip)
      case Asked(_, _) => LastSeen(trace[..|trace| - 1], ip)
  }

  ghost predicate Ordered(trace: seq<Event>) {
    forall i, j :: 0 <= i < j < |trace| ==> trace[i].at <= trace[j].at
  }

  ghost predicate ConstantWindow(trace: seq<Event>, window: int) {
    forall i :: 0 <= i < |trace| && trace[i].Asked? ==> trace[i].window == window
  }

  /** Position k has the last sighting of ip. */
  ghost predicate LastAt(trace: seq<Event>, ip: string, k: nat) {
    && k < |trace| && trace[k].Seen? && trace[k].ip == ip
    && forall j :: k < j < |trace| && trace[j].Seen? ==> trace[j].ip != ip
  }

  /** No query after position k looked back less far than to it. */
  ghost predicate Spared(trace: seq<Event>, k: nat)
    requires k < |trace|
  {
    forall j :: k < j < |trace| && trace[j].Asked? ==> trace[j].at - trace[j].window <= trace[k].at
  }

  /** The table never invents or misdates a sighting. */
  lemma {:induction false} TableIsTrue(trace: seq<Event>, ip: string)
    ensures ip in TableOf(trace) ==> LastSeen(trace, ip) == Some(TableOf(trace)[ip])
  {
    if trace != [] { TableIsTrue(trace[..|trace| - 1], ip); }
  }

  lemma {:induction false} LastSeenAt(trace: seq<Event>, ip: string) returns (k: nat)
    requires LastSeen(trace, ip).Some?
    ensures LastAt(trace, ip, k) && trace[k].at == LastSeen(trace, ip).value
  {
    var last := trace[|trace| - 1];
    if last.Seen? && last.ip == ip {
      k := |trace| - 1;
    } else {
      k := LastSeenAt(trace[..|trace| - 1], ip);
    }
  }

  lemma SparedByLast(trace: seq<Event>, e: Event, ip: string, k: nat)
    requires k < |trace|
    ensures LastAt(trace + [e], ip, k) <==> LastAt(trace, ip, k) && !(e.Seen? && e.ip == ip)
    ensures Spared(trace + [e], k) <==> Spared(trace, k) && (e.Asked? ==> e.at - e.window <= trace[k].at)
  {
    var all := trace + [e];
    assert forall j :: 0 <= j < |trace| ==> all[j] == trace[j];
    assert all[|trace|] == e;
  }

  /**
   What pruning keeps, whatever the windows and the clock: a server is in the
   table exactly when no query since its last sighting was too strict for it.
   */
  lemma {:induction false} KeptIff(trace: seq<Event>, ip: string)
    ensures ip in TableOf(trace) <==> exists k: nat :: LastAt(trace, ip, k) && Spared(trace, k)
  {
    if trace != [] {
      var n := |trace| - 1;
      var init, e := trace[..n], trace[n];
      assert trace == init + [e];
      KeptIff(init, ip);
      TableIsTrue(init, ip);
      if e.Seen? && e.ip == ip {
        assert LastAt(trace, ip, n) && Spared(trace, n);
      } else if ip in TableOf(init) {
        var k := LastSeenAt(init, ip);
        OnlyLast(init, ip);
        SparedByLast(init, e, ip, k);
        OnlyLast(trace, ip);
      } else {
        forall k: nat | k < n ensures !(LastAt(trace, ip, k) && Spared(trace, k)) {
          SparedByLast(init, e, ip, k);
        }
      }
    }
  }

  lemma OnlyLast(trace: seq<Event>, ip: string)
    ensures forall j: nat, k: nat :: LastAt(trace, ip, j) && LastAt(trace, ip, k) ==> j == k
  {}

  /**
   Pruning loses nothing: with one constant window and a clock that never goes
   back, the table after a query lists exactly the servers whose latest sighting
   in the whole record lies in the window.
   */
  lemma PruningLosesNothing(trace: seq<Event>, at: int, window: int, ip: string)
    requires Ordered(trace + [Asked(at, window)]) && ConstantWindow(trace, window)
    ensures var t := TableOf(trace + [Asked(at, window)]);
      && (ip in t <==> LastSeen(trace, ip).Some? && LastSeen(trace, ip).value >= at - window)
      && (ip in t ==> Some(t[ip]) == LastSeen(trace, ip))
  {
    var all := trace + [Asked(at, window)];
    assert all[..|trace|] == trace;
    TableIsTrue(trace, ip);
    if LastSeen(trace, ip).Some? && LastSeen(trace, ip).value >= at - window {
      var k := LastSeenAt(trace, ip);
      forall j | k < j < |trace| && trace[j].Asked? ensures trace[j].at - trace[j].window <= trace[k].at {
        assert all[j].at <= all[|trace|].at;
      }
      assert Spared(trace, k);
      KeptIff(trace, ip);
    }
  }

  lemma QueryIsExact(trace: seq<Event>, at: int, window: int)
    ensures var all := trace + [Asked(at, window)]; var t := TableOf(all);
      Ordered(all) && ConstantWindow(all, window) ==>
        forall s: ServerSighting :: s.ip in t && t[s.ip] == s.lastSeen <==>
          LastSeen(trace, s.ip) == Some(s.lastSeen) && s.lastSeen >= at - window
  {
    var all := trace + [Asked(at, window)];
    if Ordered(all) && ConstantWindow(all, window) {
      assert forall i :: 0 <= i < |trace| ==> all[i] == trace[i];
      assert ConstantWindow(trace, window);
      forall s: ServerSighting
        ensures s.ip in TableOf(all) && TableOf(all)[s.ip] == s.lastSeen <==>
          LastSeen(trace, s.ip) == Some(s.lastSeen) && s.lastSeen >= at - window
      {
        PruningLosesNothing(trace, at, window, s.ip);
      }
    }
  }

  /** With windows that vary, a strict query hides a server from a later, more lenient one. */
  lemma VaryingWindowsLose(ip: string)
    ensures var trace := [Seen(ip, 0), Asked(10, 5)];
      ip !in TableOf(trace + [Asked(10, 20)]) && LastSeen(trace, ip) == Some(0)
  {
    var t1 := [Seen(ip, 0)];
    var t2 := [Seen(ip, 0), Asked(10, 5)];
    assert t1[..0] == [] && t2[..1] == t1 && (t2 + [Asked(10, 20)])[..2] == t2;
    assert TableOf(t1) == map[ip := 0];
    assert ip !in TableOf(t2);
  }

  // ------------------------------------------------------------------- class

  function Keys(out: seq<ServerSighting>): seq<string> {
    seq(|out|, i requires 0 <= i < |out| => out[i].ip)
  }

  lemma KeysOfInserted(out: seq<ServerSighting>, p: nat, s: ServerSighting)
    requires p <= |out|
    ensures Keys(out[..p] + [s] + out[p..]) == Keys(out)[..p] + [s.ip] + Keys(out)[p..]
    ensures forall x :: x in out[..p] + [s] + out[p..] <==> x in out || x == s
  {
    assert out == out[..p] + out[p..];
  }

  lemma KeyOfElement(out: seq<ServerSighting>, key: string)
    requires key in Keys(out)
    ensures exists s :: s in out && s.ip == key
  {
    var i :| 0 <= i < |out| && Keys(out)[i] == key;
    assert out[i] in out && out[i].ip == key;
  }

  /** The library's sort of the result by IP. */
  method SortByIP(out: seq<ServerSighting>) returns (sorted: seq<ServerSighting>)
    requires forall i, j :: 0 <= i < j < |out| ==> out[i].ip != out[j].ip
    ensures Sorted(Keys(sorted)) && forall s :: s in sorted <==> s in out
  {
    sorted := [];
    for k := 0 to |out|
      invariant Sorted(Keys(sorted)) && forall s :: s in sorted <==> s in out[..k]
    {
      hide Sorted, Keys;
      var p := Position(Keys(sorted), out[k].ip);
      assert out[k].ip !in Keys(sorted) by {
        if out[k].ip in Keys(sorted) { KeyOfElement(sorted, out[k].ip); }
      }
      InsertKeepsSorted(Keys(sorted), out[k].ip);
      KeysOfInserted(sorted, p, out[k]);
      sorted := sorted[..p] + [out[k]] + sorted[p..];
      assert out[..k + 1] == out[..k] + [out[k]];
    }
    assert out[..|out|] == out;
  }

  class DHCPObserver {
    var selfIP: string
    var sightings: Table
    ghost var trace: seq<Event>

    ghost predicate Valid()
      reads this
    {
      sightings == TableOf(trace)
    }

    constructor ()
      ensures Valid() && trace == [] && selfIP == ""
    {
      selfIP, sightings, trace := "", map[], [];
    }

    method SetSelfIP(ip: Option<string>)
      requires Valid()
      modifies this`selfIP
      ensures Valid() && selfIP == if ip.Some? then ip.value else old(selfIP)
    {
      if ip == None {
        return;
      }
      selfIP := ip.value;
    }

    /** Records the server a client's REQUEST names, unless it is this one. */
    method Observe(req: Message, now: int)
      requires Valid()
      modifies this
      ensures Valid() && selfIP == old(selfIP)
      ensures trace == old(trace)
        + if req.bootRequest && req.request && req.server.Some? && req.server.value != selfIP
          then [Seen(req.server.value, now)] else []
    {
      if !req.bootRequest {
        return;
      }
      if !req.request {
        return;
      }
      if req.server == None {
        return;
      }
      var ip := req.server.value;
      if ip == selfIP {
        return;
      }
      sightings := sightings[ip := now];
      trace := trace + [Seen(ip, now)];
      assert trace[..|trace| - 1] == old(trace);
    }

    /** The foreign servers seen within the window, strictly sorted by IP; older ones are dropped. */
    method Sightings(window: int, now: int) returns (out: seq<ServerSighting>)
      requires Valid()
      modifies this
      ensures Valid() && selfIP == old(selfIP) && trace == old(trace) + [Asked(now, window)]
      ensures Sorted(Keys(out))
      ensures forall s :: s in out <==> s.ip in sightings && sightings[s.ip] == s.lastSeen
      ensures Ordered(trace) && ConstantWindow(trace, window) ==>
        forall s :: s in out <==> LastSeen(old(trace), s.ip) == Some(s.lastSeen) && s.lastSeen >= now - window
    {
      var cutoff := now - window;
      out := [];
      var rest := sightings.Keys;
      while rest != {}
        invariant rest <= old(sightings).Keys && rest <= sightings.Keys <= old(sightings).Keys
        invariant forall ip :: ip in sightings ==> sightings[ip] == old(sightings)[ip]
        invariant forall ip :: ip in old(sightings) && ip !in rest ==>
          (ip in sightings <==> old(sightings)[ip] >= cutoff)
        invariant forall s :: s in out <==> s.ip in sightings && s.ip !in rest && sightings[s.ip] == s.lastSeen
        invariant forall i, j :: 0 <= i < j < |out| ==> out[i].ip != out[j].ip
        invariant selfIP == old(selfIP) && trace == old(trace)
        decreases rest
      {
        var ip :| ip in rest;
        rest := rest - {ip};
        var seen := sightings[ip];
        if seen < cutoff {
          sightings := sightings - {ip};
          continue;
        }
        assert forall i :: 0 <= i < |out| ==> out[i] in out && out[i].ip != ip;
        out := out + [ServerSighting(ip, seen)];
      }
      trace := trace + [Asked(now, window)];
      assert trace[..|trace| - 1] == old(trace);
      assert sightings == Prune(old(sightings), cutoff);
      QueryIsExact(old(trace), now, window);
      out := SortByIP(out);
    }
  }
}
