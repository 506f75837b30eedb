/**
 The relational state: profiles, their versions, hosts, installations and ISOs.
 Row ids are never reused (AUTOINCREMENT), so each table remembers its last id.
 */
module Tables {
  import opened Basics

  type Id = nat

  datatype Profile = Profile(name: string, provider: string, iso: Option<Id>, current: nat)

  datatype Version = Version(profile: Id, number: nat, config: string, answerOverride: string)

  datatype HostStatus = Discovered | Ready | Busy | Broken

  /** `pin` is the profile version the host installs; 0 without a profile. */
  datatype Host = Host(mac: string, hostname: string, profile: Option<Id>, pin: int, status: HostStatus)

  datatype Status = Waiting | Installing | Success | Failed

  /** Times are in seconds, as stored; None is NULL. */
  datatype Installation = Installation(host: Id, version: Id, status: Status, token: string,
                                       startedAt: Option<int>, finishedAt: Option<int>, log: string)

  type Profiles = map<Id, Profile>
  type Versions = map<Id, Version>
  type Hosts = map<Id, Host>
  type Installs = map<Id, Installation>

  datatype Database = Database(
    isos: set<Id>, profiles: Profiles, versions: Versions, hosts: Hosts, installs: Installs,
    lastISO: Id, lastProfile: Id, lastVersion: Id, lastHost: Id, lastInstall: Id)

  function Queued(host: Id, version: Id, token: string): Installation {
    Installation(host, version, Waiting, token, None, None, "")
  }

  predicate Active(i: Installation) { i.status == Waiting || i.status == Installing }

  // --------------------------------------------------- what queries ask for

  /** UNIQUE (name), the row `self` aside. */
  predicate NameTaken(ps: Profiles, name: string, self: Id) {
    exists p :: p in ps && p != self && ps[p].name == name
  }

  predicate MacTaken(hs: Hosts, mac: string, self: Id) {
    exists h :: h in hs && h != self && hs[h].mac == mac
  }

  predicate ISOExists(isos: set<Id>, iso: Option<Id>) { iso.Some? ==> iso.value in isos }

  predicate IsVersion(vs: Versions, v: Id, profile: Id, number: int) {
    v in vs && vs[v].profile == profile && vs[v].number == number
  }

  predicate HasVersion(vs: Versions, profile: Id, number: int) {
    exists v :: v in vs && IsVersion(vs, v, profile, number)
  }

  /** Some installation points at the version. */
  predicate Referenced(ins: Installs, v: Id) {
    exists i :: i in ins && ins[i].version == v
  }

  predicate ProfileReferenced(ins: Installs, vs: Versions, p: Id) {
    exists v :: v in vs && vs[v].profile == p && Referenced(ins, v)
  }

  predicate IsActiveOf(ins: Installs, i: Id, host: Id) {
    i in ins && ins[i].host == host && Active(ins[i])
  }

  predicate HasActive(ins: Installs, host: Id) {
    exists i :: i in ins && IsActiveOf(ins, i, host)
  }

  predicate TokenKnown(ins: Installs, token: string) {
    exists i :: i in ins && ins[i].token == token
  }

  predicate OwnsInstalling(ins: Installs, h: Id) {
    exists i :: i in ins && ins[i].host == h && ins[i].status == Installing
  }

  /** A pin names an existing version of the profile, and there is none without a profile. */
  predicate PinOk(ps: Profiles, vs: Versions, profile: Option<Id>, pin: int) {
    match profile
    case None => pin == 0
    case Some(p) => p in ps && HasVersion(vs, p, pin)
  }

  // ------------------------------------------------------------- invariants

  /** Ids are positive and at most the last one handed out. */
  ghost predicate IdsOk(ids: set<Id>, last: Id) {
    forall x :: x in ids ==> 1 <= x <= last
  }

  /** Every version belongs to a profile and its number lies in 1..current. */
  ghost predicate NumbersInRange(ps: Profiles, vs: Versions) {
    forall v :: v in vs ==> vs[v].profile in ps && 1 <= vs[v].number <= ps[vs[v].profile].current
  }

  ghost predicate NumbersUnique(vs: Versions) {
    forall v, w :: v in vs && w in vs && vs[v].profile == vs[w].profile && vs[v].number == vs[w].number ==> v == w
  }

  ghost predicate NumbersComplete(ps: Profiles, vs: Versions) {
    forall p :: p in ps ==> Complete(vs, p, ps[p].current)
  }

  ghost predicate Complete(vs: Versions, p: Id, current: nat) {
    current >= 1 && forall k: int :: 1 <= k <= current ==> HasVersion(vs, p, k)
  }

  /** The versions of a profile are exactly 1..current, each number once. */
  ghost predicate VersionsOk(ps: Profiles, vs: Versions) {
    NumbersInRange(ps, vs) && NumbersUnique(vs) && NumbersComplete(ps, vs)
  }

  ghost predicate ISOsOk(isos: set<Id>, ps: Profiles) {
    forall p :: p in ps ==> ISOExists(isos, ps[p].iso)
  }

  ghost predicate NamesOk(ps: Profiles) {
    forall p, q :: p in ps && q in ps && ps[p].name == ps[q].name ==> p == q
  }

  /** An assigned host pins an existing version of its profile. */
  ghost predicate PinsOk(ps: Profiles, vs: Versions, hs: Hosts) {
    forall h :: h in hs && hs[h].profile.Some? ==> PinOk(ps, vs, hs[h].profile, hs[h].pin)
  }

  ghost predicate MacsOk(hs: Hosts) {
    forall g, h :: g in hs && h in hs && hs[g].mac == hs[h].mac ==> g == h
  }

  ghost predicate InstallsOk(vs: Versions, hs: Hosts, ins: Installs) {
    forall i :: i in ins ==> ins[i].host in hs && ins[i].version in vs
  }

  /** The times and the log say how far an installation has come. */
  predicate Stamped(x: Installation) {
    match x.status
    case Waiting => x.startedAt == None && x.finishedAt == None && x.log == ""
    case Installing => x.startedAt.Some? && x.finishedAt == None && x.log == ""
    case _ => x.finishedAt.Some?
  }

  ghost predicate StampsOk(ins: Installs) {
    forall i :: i in ins ==> Stamped(ins[i])
  }

  ghost predicate TokensOk(ins: Installs) {
    && (forall i :: i in ins ==> ins[i].token != "")
    && (forall i, j :: i in ins && j in ins && ins[i].token == ins[j].token ==> i == j)
  }

  /** At most one installation per host is waiting or installing. */
  ghost predicate OneActive(ins: Installs) {
    forall i, j :: i in ins && j in ins && ins[i].host == ins[j].host && Active(ins[i]) && Active(ins[j]) ==> i == j
  }

  /** A host is busy exactly while it owns an installing installation. */
  ghost predicate StatusOk(hs: Hosts, ins: Installs) {
    forall h :: h in hs ==> (hs[h].status == Busy <==> OwnsInstalling(ins, h))
  }

  ghost predicate InstallsInv(vs: Versions, hs: Hosts, ins: Installs, last: Id) {
    && IdsOk(ins.Keys, last) && InstallsOk(vs, hs, ins) && TokensOk(ins) && StampsOk(ins)
    && OneActive(ins) && StatusOk(hs, ins)
  }

  ghost predicate ProfilesInv(isos: set<Id>, ps: Profiles, vs: Versions, lastProfile: Id, lastVersion: Id) {
    && IdsOk(ps.Keys, lastProfile) && IdsOk(vs.Keys, lastVersion)
    && ISOsOk(isos, ps) && NamesOk(ps) && VersionsOk(ps, vs)
  }

  ghost predicate Inv(db: Database) {
    && IdsOk(db.isos, db.lastISO) && IdsOk(db.hosts.Keys, db.lastHost)
    && ProfilesInv(db.isos, db.profiles, db.versions, db.lastProfile, db.lastVersion)
    && PinsOk(db.profiles, db.versions, db.hosts) && MacsOk(db.hosts)
    && InstallsInv(db.versions, db.hosts, db.installs, db.lastInstall)
  }

  const EMPTY := Database({}, map[], map[], map[], map[], 0, 0, 0, 0, 0)

  lemma EmptyInv()
    ensures Inv(EMPTY)
  {}

  // --------------------------------------------- changes to single tables

  /** The rows of vs that belong to p are in ws, with the same number. */
  ghost predicate Keeps(vs: Versions, ws: Versions, p: Id) {
    forall v :: v in vs && vs[v].profile == p ==> v in ws && ws[v].profile == p && ws[v].number == vs[v].number
  }

  lemma NumberSurvives(vs: Versions, ws: Versions, p: Id, k: int)
    requires HasVersion(vs, p, k) && Keeps(vs, ws, p)
    ensures HasVersion(ws, p, k)
  {}

  /** Pins survive whatever keeps the profile and its versions. */
  lemma PinsSurvive(ps: Profiles, vs: Versions, qs: Profiles, ws: Versions, hs: Hosts)
    requires PinsOk(ps, vs, hs)
    requires forall h :: h in hs && hs[h].profile.Some? ==>
      hs[h].profile.value in qs && Keeps(vs, ws, hs[h].profile.value)
    ensures PinsOk(qs, ws, hs)
  {}

  lemma CompleteSurvives(vs: Versions, ws: Versions, p: Id, current: nat)
    requires Complete(vs, p, current) && Keeps(vs, ws, p)
    ensures Complete(ws, p, current)
  {
    forall k: int | 1 <= k <= current ensures HasVersion(ws, p, k) {
      NumberSurvives(vs, ws, p, k);
    }
  }

  /** Names, ISOs, configs and overrides play no part in the numbering. */
  lemma NumberingSurvives(ps: Profiles, vs: Versions, qs: Profiles, ws: Versions)
    requires VersionsOk(ps, vs) && qs.Keys == ps.Keys && ws.Keys == vs.Keys
    requires forall p :: p in ps ==> qs[p].current == ps[p].current
    requires forall v :: v in vs ==> ws[v].profile == vs[v].profile && ws[v].number == vs[v].number
    ensures VersionsOk(qs, ws)
  {
    forall p | p in qs ensures Complete(ws, p, qs[p].current) {
      CompleteSurvives(vs, ws, p, ps[p].current);
    }
  }

  /** MAX (version) + 1, in a consistent table, is current + 1. */
  lemma NextNumber(ps: Profiles, vs: Versions, p: Id, number: nat)
    requires VersionsOk(ps, vs) && p in ps && number >= 1
    requires forall v :: v in vs && vs[v].profile == p ==> vs[v].number < number
    requires number > 1 ==> HasVersion(vs, p, number - 1)
    ensures number == ps[p].current + 1
  {
    assert Complete(vs, p, ps[p].current) && HasVersion(vs, p, ps[p].current);
    var v :| v in vs && IsVersion(vs, v, p, ps[p].current);
    if number > 1 {
      var w :| w in vs && IsVersion(vs, w, p, number - 1);
    }
  }

  /** A version added to a profile, as its head. */
  lemma AppendVersion(ps: Profiles, vs: Versions, p: Id, row: Profile, v: Id, version: Version)
    requires VersionsOk(ps, vs) && v !in vs && version.profile == p
    requires if p in ps then row.current == ps[p].current + 1 else row.current == 1
    requires version.number == row.current
    ensures VersionsOk(ps[p := row], vs[v := version])
  {
    var qs, ws := ps[p := row], vs[v := version];
    forall q | q in qs ensures Complete(ws, q, qs[q].current) {
      if q in ps { CompleteSurvives(vs, ws, q, ps[q].current); }
      if q == p { assert IsVersion(ws, v, p, row.current); }
    }
    assert NumbersUnique(ws);
  }

  /** A row whose name is not taken can be written. */
  lemma WriteProfile(isos: set<Id>, ps: Profiles, p: Id, row: Profile)
    requires NamesOk(ps) && ISOsOk(isos, ps) && !NameTaken(ps, row.name, p) && ISOExists(isos, row.iso)
    ensures NamesOk(ps[p := row]) && ISOsOk(isos, ps[p := row])
  {}

  /** A new profile starts with version 1. */
  lemma AddProfile(isos: set<Id>, ps: Profiles, vs: Versions, lastP: Id, lastV: Id, row: Profile, config: string)
    requires ProfilesInv(isos, ps, vs, lastP, lastV) && row.current == 1
    requires !NameTaken(ps, row.name, 0) && ISOExists(isos, row.iso)
    ensures ProfilesInv(isos, ps[lastP + 1 := row], vs[lastV + 1 := Version(lastP + 1, 1, config, "")],
                        lastP + 1, lastV + 1)
  {
    var p, v, version := lastP + 1, lastV + 1, Version(lastP + 1, 1, config, "");
    AppendVersion(ps, vs, p, row, v, version);
    WriteProfile(isos, ps, p, row);
    assert IdsOk(ps[p := row].Keys, p) && IdsOk(vs[v := version].Keys, v);
  }

  /** The next number becomes the head. */
  lemma AddHead(isos: set<Id>, ps: Profiles, vs: Versions, lastP: Id, lastV: Id, p: Id, number: nat, config: string)
    requires ProfilesInv(isos, ps, vs, lastP, lastV) && p in ps && number == ps[p].current + 1
    ensures ProfilesInv(isos, ps[p := ps[p].(current := number)],
                        vs[lastV + 1 := Version(p, number, config, "")], lastP, lastV + 1)
  {
    var row, v, version := ps[p].(current := number), lastV + 1, Version(p, number, config, "");
    AppendVersion(ps, vs, p, row, v, version);
    WriteProfile(isos, ps, p, row);
    assert IdsOk(ps[p := row].Keys, lastP) && IdsOk(vs[v := version].Keys, v);
  }

  lemma DropVersions(ps: Profiles, vs: Versions, ws: Versions, p: Id)
    requires VersionsOk(ps, vs)
    requires ws == map v | v in vs && vs[v].profile != p :: vs[v]
    ensures VersionsOk(ps - {p}, ws)
  {
    forall q | q in ps - {p} ensures Complete(ws, q, ps[q].current) {
      CompleteSurvives(vs, ws, q, ps[q].current);
    }
  }

  /** A change of installations a host is not involved in leaves it idle or busy. */
  lemma OwnsSurvives(ins: Installs, jns: Installs, h: Id)
    requires forall i :: i in ins && ins[i].host == h ==> i in jns && jns[i].host == h && jns[i].status == ins[i].status
    requires forall i :: i in jns && jns[i].host == h && jns[i].status == Installing ==> i in ins && ins[i] == jns[i]
    ensures OwnsInstalling(ins, h) <==> OwnsInstalling(jns, h)
  {}

  /** Unassigning a dropped profile keeps the other pins. */
  lemma PinsWithout(ps: Profiles, vs: Versions, ws: Versions, hs: Hosts, gs: Hosts, p: Id)
    requires PinsOk(ps, vs, hs) && gs.Keys == hs.Keys
    requires forall v :: v in vs && vs[v].profile != p ==> v in ws && ws[v] == vs[v]
    requires forall h :: h in gs && gs[h].profile.Some? ==> gs[h] == hs[h] && gs[h].profile != Some(p)
    ensures PinsOk(ps - {p}, ws, gs)
  {}

  /** No installation loses its version when an unreferenced profile goes. */
  lemma InstallsWithout(vs: Versions, ws: Versions, hs: Hosts, gs: Hosts, ins: Installs, p: Id)
    requires InstallsOk(vs, hs, ins) && !ProfileReferenced(ins, vs, p) && gs.Keys == hs.Keys
    requires forall v :: v in vs && vs[v].profile != p ==> v in ws
    ensures InstallsOk(ws, gs, ins)
  {}

  lemma StatusUntouched(hs: Hosts, gs: Hosts, ins: Installs)
    requires StatusOk(hs, ins) && gs.Keys == hs.Keys && forall h :: h in hs ==> gs[h].status == hs[h].status
    ensures StatusOk(gs, ins)
  {}

  /** The rest of the invariant, when only the profile column of hosts and the profile p go. */
  lemma RestWithout(db: Database, e: Database, p: Id)
    requires Inv(db) && e.isos == db.isos && e.profiles == db.profiles - {p} && e.hosts.Keys == db.hosts.Keys
    requires forall h :: h in e.hosts ==> e.hosts[h].mac == db.hosts[h].mac
    ensures ISOsOk(e.isos, e.profiles) && NamesOk(e.profiles) && MacsOk(e.hosts)
    ensures IdsOk(e.profiles.Keys, db.lastProfile) && IdsOk(e.hosts.Keys, db.lastHost)
  {}

  /** The columns that move with the status are all that changes: the rest of the invariant looks at no other. */
  lemma RestOfStatus(ps: Profiles, vs: Versions, hs: Hosts, ins: Installs, i: Id, x: Installation, t: HostStatus)
    requires PinsOk(ps, vs, hs) && MacsOk(hs) && InstallsOk(vs, hs, ins) && TokensOk(ins) && StampsOk(ins) && i in ins
    requires x.host == ins[i].host && x.version == ins[i].version && x.token == ins[i].token && Stamped(x)
    ensures var gs := hs[x.host := hs[x.host].(status := t)]; var jns := ins[i := x];
      && gs.Keys == hs.Keys && jns.Keys == ins.Keys
      && PinsOk(ps, vs, gs) && MacsOk(gs) && InstallsOk(vs, gs, jns) && TokensOk(jns) && StampsOk(jns)
  {
    hide PinOk, PinsOk, MacsOk, TokensOk, StampsOk;
    SameHosts(ps, vs, hs, hs[x.host := hs[x.host].(status := t)]);
    SameTokens(ins, i, x);
  }

  lemma SameHosts(ps: Profiles, vs: Versions, hs: Hosts, gs: Hosts)
    requires PinsOk(ps, vs, hs) && MacsOk(hs) && gs.Keys == hs.Keys
    requires forall h :: h in hs ==> gs[h].(status := hs[h].status) == hs[h]
    ensures PinsOk(ps, vs, gs) && MacsOk(gs)
  {
    hide PinOk;
  }

  lemma SameTokens(ins: Installs, i: Id, x: Installation)
    requires TokensOk(ins) && StampsOk(ins) && i in ins && x.token == ins[i].token && Stamped(x)
    ensures TokensOk(ins[i := x]) && StampsOk(ins[i := x])
  {}

  /** A new waiting installation for an idle host. */
  lemma QueueInstall(vs: Versions, hs: Hosts, ins: Installs, last: Id, x: Installation)
    requires InstallsInv(vs, hs, ins, last) && x.host in hs && x.version in vs
    requires x.status == Waiting && Stamped(x)
    requires !HasActive(ins, x.host) && x.token != "" && !TokenKnown(ins, x.token)
    ensures InstallsInv(vs, hs, ins[last + 1 := x], last + 1)
  {
    var jns := ins[last + 1 := x];
    assert TokensOk(jns) && StampsOk(jns) && last + 1 !in ins;
    hide TokensOk, StampsOk;
    forall h | h in hs ensures hs[h].status == Busy <==> OwnsInstalling(jns, h) {
      OwnsSurvives(ins, jns, h);
    }
    assert forall j :: j in ins && ins[j].host == x.host ==> !IsActiveOf(ins, j, x.host);
  }

  /** An active installation of the host moves on, and the host's status with it. */
  lemma MoveStatus(hs: Hosts, ins: Installs, i: Id, x: Installation, t: HostStatus)
    requires StatusOk(hs, ins) && OneActive(ins) && i in ins && Active(ins[i]) && ins[i].host in hs
    requires x.host == ins[i].host && x.status != Waiting && (t == Busy <==> x.status == Installing)
    ensures StatusOk(hs[x.host := hs[x.host].(status := t)], ins[i := x]) && OneActive(ins[i := x])
  {
    var h, jns := x.host, ins[i := x];
    var gs := hs[h := hs[h].(status := t)];
    forall g | g in gs ensures gs[g].status == Busy <==> OwnsInstalling(jns, g) {
      if g != h {
        OwnsSurvives(ins, jns, g);
      } else if x.status == Installing {
        assert jns[i].status == Installing;
      }
    }
  }

  /** Removing installations leaves the rest as unique as before. */
  lemma FewerInstalls(ins: Installs, jns: Installs)
    requires TokensOk(ins) && OneActive(ins) && StampsOk(ins)
    requires forall j :: j in jns ==> j in ins && jns[j] == ins[j]
    ensures TokensOk(jns) && OneActive(jns) && StampsOk(jns)
  {}

  /** A host goes together with its installations. */
  lemma DropInstallsOf(vs: Versions, hs: Hosts, ins: Installs, jns: Installs, last: Id, h: Id)
    requires InstallsInv(vs, hs, ins, last)
    requires jns == map i | i in ins && ins[i].host != h :: ins[i]
    ensures InstallsInv(vs, hs - {h}, jns, last)
  {
    hide TokensOk, OneActive, StampsOk;
    FewerInstalls(ins, jns);
    forall g | g in hs && g != h ensures hs[g].status == Busy <==> OwnsInstalling(jns, g) {
      OwnsSurvives(ins, jns, g);
    }
  }

  /** A waiting installation keeps no host busy. */
  lemma DropWaiting(vs: Versions, hs: Hosts, ins: Installs, last: Id, i: Id)
    requires InstallsInv(vs, hs, ins, last) && i in ins && ins[i].status == Waiting
    ensures InstallsInv(vs, hs, ins - {i}, last)
  {
    hide TokensOk, OneActive, StampsOk;
    FewerInstalls(ins, ins - {i});
    forall g | g in hs ensures hs[g].status == Busy <==> OwnsInstalling(ins - {i}, g) {
      if j :| j in ins && ins[j].host == g && ins[j].status == Installing {
        assert j in ins - {i};
      }
    }
  }

  /** A host row with a free MAC and an existing pin can be written. */
  lemma WriteHost(ps: Profiles, vs: Versions, hs: Hosts, h: Id, row: Host)
    requires PinsOk(ps, vs, hs) && MacsOk(hs)
    requires !MacTaken(hs, row.mac, h) && PinOk(ps, vs, row.profile, row.pin)
    ensures PinsOk(ps, vs, hs[h := row]) && MacsOk(hs[h := row])
  {}

  /** A host row that is as busy as the installations say can be written. */
  lemma WriteHostStatus(vs: Versions, hs: Hosts, ins: Installs, last: Id, h: Id, row: Host)
    requires InstallsInv(vs, hs, ins, last) && (row.status == Busy <==> OwnsInstalling(ins, h))
    ensures InstallsInv(vs, hs[h := row], ins, last)
  {
    hide TokensOk, OneActive, StampsOk;
  }
}
