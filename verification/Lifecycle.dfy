/**
 What the handlers may do to the tables, one atomic action each, and what every
 run of such actions keeps. Store.dfy, Api.dfy and Boot.dfy show that the
 handlers perform these actions and nothing else.
 */
module Lifecycle {
  import opened Basics
  import opened Tables

  datatype Change =
    | KeepConfig
    | EditHead(head: Id, config: string)
    | SaveAsNew(number: nat, config: string)

  datatype Action =
    | AddISO
    | DropISO(iso: Id)
    | NewProfile(name: string, provider: string, isoOf: Option<Id>, config: string)
    | EditProfile(profile: Id, name: string, isoOf: Option<Id>, change: Change)
    | Override(version: Id, content: string)
    | DropProfile(profile: Id)
    | NewHost(mac: string, hostname: string, profileOf: Option<Id>, pin: int, status: HostStatus)
    | EditHost(host: Id, mac: string, hostname: string, profileOf: Option<Id>, pin: int)
    | DropHost(host: Id)
    | Queue(host: Id, version: Id, token: string)
    | Cancel(install: Id)
    | Start(install: Id, at: int)
    | Finish(install: Id, ok: bool, at: int, line: string)

  /** An in-place edit needs an unreferenced head, a new version the next number. */
  predicate ChangeOk(db: Database, p: Id, c: Change)
    requires p in db.profiles
  {
    match c
    case KeepConfig => true
    case EditHead(head, _) => IsVersion(db.versions, head, p, db.profiles[p].current) && !Referenced(db.installs, head)
    case SaveAsNew(number, _) =>
      && number >= 1
      && (forall v :: v in db.versions && db.versions[v].profile == p ==> db.versions[v].number < number)
      && (number > 1 ==> HasVersion(db.versions, p, number - 1))
  }

  predicate Enabled(db: Database, a: Action) {
    match a
    case AddISO => true
    case DropISO(iso) => iso in db.isos
    case NewProfile(name, _, iso, _) => !NameTaken(db.profiles, name, 0) && ISOExists(db.isos, iso)
    case EditProfile(p, name, iso, change) =>
      p in db.profiles && !NameTaken(db.profiles, name, p) && ISOExists(db.isos, iso) && ChangeOk(db, p, change)
    case Override(v, _) => v in db.versions
    case DropProfile(p) => p in db.profiles && !ProfileReferenced(db.installs, db.versions, p)
    case NewHost(mac, _, profile, pin, status) =>
      && !MacTaken(db.hosts, mac, 0) && PinOk(db.profiles, db.versions, profile, pin)
      && (status == Discovered || status == Ready)
    case EditHost(h, mac, _, profile, pin) =>
      h in db.hosts && !MacTaken(db.hosts, mac, h) && PinOk(db.profiles, db.versions, profile, pin)
    case DropHost(h) => h in db.hosts
    case Queue(h, v, token) =>
      && h in db.hosts && v in db.versions && !HasActive(db.installs, h)
      && token != "" && !TokenKnown(db.installs, token)
    case Cancel(i) => i in db.installs && db.installs[i].status == Waiting
    case Start(i, _) => i in db.installs && db.installs[i].status == Waiting && db.installs[i].host in db.hosts
    case Finish(i, _, _, _) => i in db.installs && Active(db.installs[i]) && db.installs[i].host in db.hosts
  }

  function Started(x: Installation, at: int): Installation {
    x.(status := Installing, startedAt := Some(at))
  }

  function Finished(x: Installation, ok: bool, at: int, line: string): Installation {
    x.(status := if ok then Success else Failed, finishedAt := Some(at), log := x.log + line)
  }

  /** Installation i becomes x, and the status of its host h. */
  function SetStatus(db: Database, i: Id, x: Installation, h: HostStatus): Database
    requires i in db.installs && x.host in db.hosts
  {
    db.(installs := db.installs[i := x], hosts := db.hosts[x.host := db.hosts[x.host].(status := h)])
  }

  function Changed(db: Database, p: Id, c: Change): Database
    requires p in db.profiles && (c.EditHead? ==> c.head in db.versions)
  {
    match c
    case KeepConfig => db
    case EditHead(head, config) => db.(versions := db.versions[head := db.versions[head].(config := config)])
    case SaveAsNew(number, config) =>
      db.(profiles := db.profiles[p := db.profiles[p].(current := number)],
          versions := db.versions[db.lastVersion + 1 := Version(p, number, config, "")],
          lastVersion := db.lastVersion + 1)
  }

  function Renamed(db: Database, p: Id, name: string, iso: Option<Id>): Database
    requires p in db.profiles
  {
    db.(profiles := db.profiles[p := db.profiles[p].(name := name, iso := iso)])
  }

  function WithInstall(db: Database, x: Installation): Database {
    db.(installs := db.installs[db.lastInstall + 1 := x], lastInstall := db.lastInstall + 1)
  }

  function WithHost(db: Database, x: Host): Database {
    db.(hosts := db.hosts[db.lastHost + 1 := x], lastHost := db.lastHost + 1)
  }

  function WithProfile(db: Database, row: Profile, config: string): Database {
    var p, v := db.lastProfile + 1, db.lastVersion + 1;
    db.(profiles := db.profiles[p := row], lastProfile := p,
        versions := db.versions[v := Version(p, 1, config, "")], lastVersion := v)
  }

  function WithoutProfile(h: Host, p: Id): Host {
    if h.profile == Some(p) then h.(profile := None) else h
  }

  function WithoutISO(p: Profile, iso: Id): Profile {
    if p.iso == Some(iso) then p.(iso := None) else p
  }

  function Apply(db: Database, a: Action): Database
    requires Enabled(db, a)
  {
    match a
    case AddISO => db.(isos := db.isos + {db.lastISO + 1}, lastISO := db.lastISO + 1)
    case DropISO(iso) =>
      db.(isos := db.isos - {iso}, profiles := map p | p in db.profiles :: WithoutISO(db.profiles[p], iso))
    case NewProfile(name, provider, iso, config) =>
      WithProfile(db, Profile(name, provider, iso, 1), config)
    case EditProfile(p, name, iso, change) =>
      Changed(Renamed(db, p, name, iso), p, change)
    case Override(v, content) =>
      db.(versions := db.versions[v := db.versions[v].(answerOverride := content)])
    case DropProfile(p) =>
      db.(profiles := db.profiles - {p},
          versions := map v | v in db.versions && db.versions[v].profile != p :: db.versions[v],
          hosts := map h | h in db.hosts :: WithoutProfile(db.hosts[h], p))
    case NewHost(mac, hostname, profile, pin, status) => WithHost(db, Host(mac, hostname, profile, pin, status))
    case EditHost(h, mac, hostname, profile, pin) =>
      db.(hosts := db.hosts[h := Host(mac, hostname, profile, pin, db.hosts[h].status)])
    case DropHost(h) =>
      db.(hosts := db.hosts - {h},
          installs := map i | i in db.installs && db.installs[i].host != h :: db.installs[i])
    case Queue(h, v, token) => WithInstall(db, Queued(h, v, token))
    case Cancel(i) => db.(installs := db.installs - {i})
    case Start(i, at) => SetStatus(db, i, Started(db.installs[i], at), Busy)
    case Finish(i, ok, at, line) =>
      SetStatus(db, i, Finished(db.installs[i], ok, at, line), if ok then Ready else Broken)
  }

  /** The action is allowed in db and leads to e. */
  predicate Step(db: Database, a: Action, e: Database) {
    Enabled(db, a) && e == Apply(db, a)
  }

  // ---------------------------------------------------- every action keeps Inv

  lemma AddISOKeepsInv(db: Database)
    requires Inv(db)
    ensures Inv(Apply(db, AddISO))
  {}

  lemma DropISOKeepsInv(db: Database, iso: Id)
    requires Inv(db) && Enabled(db, DropISO(iso))
    ensures Inv(Apply(db, DropISO(iso)))
  {
    var e := Apply(db, DropISO(iso));
    NumberingSurvives(db.profiles, db.versions, e.profiles, e.versions);
    PinsSurvive(db.profiles, db.versions, e.profiles, e.versions, e.hosts);
  }

  /** Consistent profile and version tables that keep every old row can replace the old ones. */
  lemma ReplaceProfiles(db: Database, ps: Profiles, vs: Versions, lastProfile: Id, lastVersion: Id)
    requires Inv(db) && ProfilesInv(db.isos, ps, vs, lastProfile, lastVersion)
    requires db.profiles.Keys <= ps.Keys && db.versions.Keys <= vs.Keys
    requires forall v :: v in db.versions ==>
      vs[v].profile == db.versions[v].profile && vs[v].number == db.versions[v].number
    ensures Inv(db.(profiles := ps, versions := vs, lastProfile := lastProfile, lastVersion := lastVersion))
  {
    hide TokensOk, OneActive, StatusOk, MacsOk, VersionsOk, ISOsOk, NamesOk;
    PinsSurvive(db.profiles, db.versions, ps, vs, db.hosts);
    assert InstallsOk(vs, db.hosts, db.installs);
  }

  lemma NewProfileKeepsInv(db: Database, row: Profile, config: string)
    requires Inv(db) && row.current == 1 && !NameTaken(db.profiles, row.name, 0) && ISOExists(db.isos, row.iso)
    ensures Inv(WithProfile(db, row, config))
  {
    hide PinsOk, MacsOk, InstallsInv, ISOsOk, NamesOk, VersionsOk;
    var e := WithProfile(db, row, config);
    AddProfile(db.isos, db.profiles, db.versions, db.lastProfile, db.lastVersion, row, config);
    ReplaceProfiles(db, e.profiles, e.versions, e.lastProfile, e.lastVersion);
  }

  lemma RenamedKeepsInv(db: Database, p: Id, name: string, iso: Option<Id>)
    requires Inv(db) && p in db.profiles && !NameTaken(db.profiles, name, p) && ISOExists(db.isos, iso)
    ensures Inv(Renamed(db, p, name, iso))
  {}

  lemma EditHeadKeepsInv(db: Database, p: Id, head: Id, config: string)
    requires Inv(db) && p in db.profiles && ChangeOk(db, p, EditHead(head, config))
    ensures Inv(Changed(db, p, EditHead(head, config)))
  {
    hide TokensOk, OneActive, StampsOk, StatusOk, MacsOk, VersionsOk, NamesOk, ISOsOk;
    var e := Changed(db, p, EditHead(head, config));
    NumberingSurvives(db.profiles, db.versions, e.profiles, e.versions);
    PinsSurvive(db.profiles, db.versions, e.profiles, e.versions, e.hosts);
  }

  lemma SaveAsNewKeepsInv(db: Database, p: Id, number: nat, config: string)
    requires Inv(db) && p in db.profiles && number == db.profiles[p].current + 1
    ensures Inv(Changed(db, p, SaveAsNew(number, config)))
  {
    hide PinsOk, MacsOk, InstallsInv, ISOsOk, NamesOk, VersionsOk;
    var e := Changed(db, p, SaveAsNew(number, config));
    AddHead(db.isos, db.profiles, db.versions, db.lastProfile, db.lastVersion, p, number, config);
    ReplaceProfiles(db, e.profiles, e.versions, e.lastProfile, e.lastVersion);
  }

  lemma EditProfileKeepsInv(db: Database, p: Id, name: string, iso: Option<Id>, c: Change)
    requires Inv(db) && Enabled(db, EditProfile(p, name, iso, c))
    ensures Inv(Changed(Renamed(db, p, name, iso), p, c))
  {
    RenamedKeepsInv(db, p, name, iso);
    assert ChangeOk(Renamed(db, p, name, iso), p, c);
    match c
    case KeepConfig =>
    case EditHead(head, config) => EditHeadKeepsInv(Renamed(db, p, name, iso), p, head, config);
    case SaveAsNew(number, config) =>
      NextNumber(db.profiles, db.versions, p, number);
      SaveAsNewKeepsInv(Renamed(db, p, name, iso), p, number, config);
  }

  lemma OverrideKeepsInv(db: Database, v: Id, content: string)
    requires Inv(db) && Enabled(db, Override(v, content))
    ensures Inv(Apply(db, Override(v, content)))
  {
    hide TokensOk, OneActive, StampsOk, StatusOk, MacsOk, VersionsOk, NamesOk, ISOsOk;
    var e := Apply(db, Override(v, content));
    NumberingSurvives(db.profiles, db.versions, e.profiles, e.versions);
    PinsSurvive(db.profiles, db.versions, e.profiles, e.versions, e.hosts);
  }

  lemma DropProfileKeepsInv(db: Database, p: Id)
    requires Inv(db) && Enabled(db, DropProfile(p))
    ensures Inv(Apply(db, DropProfile(p)))
  {
    hide TokensOk, OneActive, StampsOk, StatusOk, InstallsOk, MacsOk, PinsOk, VersionsOk, NamesOk, ISOsOk;
    var e := Apply(db, DropProfile(p));
    DropVersions(db.profiles, db.versions, e.versions, p);
    PinsWithout(db.profiles, db.versions, e.versions, db.hosts, e.hosts, p);
    InstallsWithout(db.versions, e.versions, db.hosts, e.hosts, db.installs, p);
    StatusUntouched(db.hosts, e.hosts, db.installs);
    RestWithout(db, e, p);
    assert e.versions.Keys <= db.versions.Keys;
  }

  /** A row for a host, with a free MAC, an existing pin and the right status. */
  lemma HostKeepsInv(db: Database, h: Id, row: Host, last: Id)
    requires Inv(db) && 1 <= h <= last && db.lastHost <= last
    requires !MacTaken(db.hosts, row.mac, h) && PinOk(db.profiles, db.versions, row.profile, row.pin)
    requires row.status == Busy <==> OwnsInstalling(db.installs, h)
    ensures Inv(db.(hosts := db.hosts[h := row], lastHost := last))
  {
    hide ProfilesInv, InstallsInv, PinsOk, MacsOk, MacTaken, PinOk, OwnsInstalling;
    WriteHost(db.profiles, db.versions, db.hosts, h, row);
    WriteHostStatus(db.versions, db.hosts, db.installs, db.lastInstall, h, row);
  }

  lemma NewHostKeepsInv(db: Database, row: Host)
    requires Inv(db) && row.status != Busy
    requires !MacTaken(db.hosts, row.mac, 0) && PinOk(db.profiles, db.versions, row.profile, row.pin)
    ensures Inv(WithHost(db, row))
  {
    var h := db.lastHost + 1;
    assert !OwnsInstalling(db.installs, h) by { hide ProfilesInv, PinsOk, MacsOk, TokensOk, OneActive, StampsOk; }
    hide ProfilesInv, InstallsInv, PinsOk, MacsOk, PinOk, OwnsInstalling, IdsOk;
    HostKeepsInv(db, h, row, h);
  }

  lemma EditHostKeepsInv(db: Database, h: Id, row: Host)
    requires Inv(db) && h in db.hosts && row.status == db.hosts[h].status
    requires !MacTaken(db.hosts, row.mac, h) && PinOk(db.profiles, db.versions, row.profile, row.pin)
    ensures Inv(db.(hosts := db.hosts[h := row]))
  {
    hide ProfilesInv, PinsOk, MacsOk, PinOk, OwnsInstalling, TokensOk, OneActive, StampsOk, InstallsOk;
    HostKeepsInv(db, h, row, db.lastHost);
  }

  lemma DropHostKeepsInv(db: Database, h: Id)
    requires Inv(db) && Enabled(db, DropHost(h))
    ensures Inv(Apply(db, DropHost(h)))
  {
    hide ProfilesInv, InstallsInv, PinOk;
    var e := Apply(db, DropHost(h));
    DropInstallsOf(db.versions, db.hosts, db.installs, e.installs, db.lastInstall, h);
  }

  /** A consistent installations table can replace the old one. */
  lemma ReplaceInstalls(db: Database, ins: Installs, last: Id)
    requires Inv(db) && InstallsInv(db.versions, db.hosts, ins, last)
    ensures Inv(db.(installs := ins, lastInstall := last))
  {}

  lemma CancelKeepsInv(db: Database, i: Id)
    requires Inv(db) && Enabled(db, Cancel(i))
    ensures Inv(Apply(db, Cancel(i)))
  {
    hide ProfilesInv, InstallsInv, PinsOk, MacsOk;
    DropWaiting(db.versions, db.hosts, db.installs, db.lastInstall, i);
    ReplaceInstalls(db, db.installs - {i}, db.lastInstall);
  }

  /** Only the host of an installation is touched when its status moves. */
  lemma SetStatusKeepsInv(db: Database, i: Id, x: Installation, h: HostStatus)
    requires Inv(db) && i in db.installs && Active(db.installs[i]) && x.status != Waiting && Stamped(x)
    requires x.host == db.installs[i].host && x.version == db.installs[i].version && x.token == db.installs[i].token
    requires h == Busy <==> x.status == Installing
    ensures Inv(SetStatus(db, i, x, h))
  {
    MoveStatus(db.hosts, db.installs, i, x, h);
    RestOfStatus(db.profiles, db.versions, db.hosts, db.installs, i, x, h);
  }

  lemma RowIsStamped(db: Database, i: Id)
    requires Inv(db) && i in db.installs
    ensures Stamped(db.installs[i])
  {}

  /** Every action of every handler keeps every invariant. */
  lemma ActionKeepsInv(db: Database, a: Action)
    requires Inv(db) && Enabled(db, a)
    ensures Inv(Apply(db, a))
  {
    hide ProfilesInv, InstallsInv, PinsOk, MacsOk, IdsOk;
    match a
    case AddISO => AddISOKeepsInv(db);
    case DropISO(iso) => DropISOKeepsInv(db, iso);
    case NewProfile(name, provider, iso, config) =>
      NewProfileKeepsInv(db, Profile(name, provider, iso, 1), config);
    case EditProfile(p, name, iso, c) => EditProfileKeepsInv(db, p, name, iso, c);
    case Override(v, content) => OverrideKeepsInv(db, v, content);
    case DropProfile(p) => DropProfileKeepsInv(db, p);
    case NewHost(mac, hostname, profile, pin, status) => NewHostKeepsInv(db, Host(mac, hostname, profile, pin, status));
    case EditHost(h, mac, hostname, profile, pin) =>
      EditHostKeepsInv(db, h, Host(mac, hostname, profile, pin, db.hosts[h].status));
    case DropHost(h) => DropHostKeepsInv(db, h);
    case Queue(h, v, token) =>
      QueueInstall(db.versions, db.hosts, db.installs, db.lastInstall, Queued(h, v, token));
      ReplaceInstalls(db, db.installs[db.lastInstall + 1 := Queued(h, v, token)], db.lastInstall + 1);
    case Cancel(i) => CancelKeepsInv(db, i);
    case Start(i, at) =>
      RowIsStamped(db, i);
      SetStatusKeepsInv(db, i, Started(db.installs[i], at), Busy);
    case Finish(i, ok, at, line) =>
      SetStatusKeepsInv(db, i, Finished(db.installs[i], ok, at, line), if ok then Ready else Broken);
  }

  lemma StepKeepsInv(db: Database, a: Action, e: Database)
    requires Inv(db) && Step(db, a, e)
    ensures Inv(e)
  {
    ActionKeepsInv(db, a);
  }

  // ------------------------------------------------------------- one action

  predicate TouchesVersions(a: Action) {
    a.NewProfile? || a.EditProfile? || a.Override? || a.DropProfile?
  }

  lemma OthersKeepVersions(db: Database, a: Action)
    requires Enabled(db, a) && !TouchesVersions(a)
    ensures Apply(db, a).versions == db.versions
  {}

  /** While an installation points at a version, no action changes its config or removes it. */
  lemma ReferencedIsFixed(db: Database, a: Action, v: Id)
    requires Inv(db) && Enabled(db, a) && v in db.versions && Referenced(db.installs, v)
    ensures v in Apply(db, a).versions
    ensures Apply(db, a).versions[v].(answerOverride := "") == db.versions[v].(answerOverride := "")
  {
    if !TouchesVersions(a) {
      OthersKeepVersions(db, a);
    } else {
      VersionActionSpares(db, a, v);
    }
  }

  lemma VersionActionSpares(db: Database, a: Action, v: Id)
    requires IdsOk(db.versions.Keys, db.lastVersion) && TouchesVersions(a) && Enabled(db, a)
    requires v in db.versions && Referenced(db.installs, v)
    ensures v in Apply(db, a).versions
    ensures Apply(db, a).versions[v].(answerOverride := "") == db.versions[v].(answerOverride := "")
  {}

  function Rank(s: Status): nat {
    match s case Waiting => 0 case Installing => 1 case Success => 2 case Failed => 2
  }

  /**
   Later, the same installation: same host, version and token. The row is as it
   was, or its status has moved forward; a start once recorded stays recorded.
   */
  predicate Advances(x: Installation, y: Installation) {
    && x.host == y.host && x.version == y.version && x.token == y.token
    && (x == y || Rank(x.status) < Rank(y.status))
    && (x.startedAt.Some? ==> y.startedAt == x.startedAt) && x.log <= y.log
  }

  predicate TouchesInstalls(a: Action) {
    a.DropHost? || a.Queue? || a.Cancel? || a.Start? || a.Finish?
  }

  lemma OthersKeepInstalls(db: Database, a: Action)
    requires Enabled(db, a) && !TouchesInstalls(a)
    ensures Apply(db, a).installs == db.installs && Apply(db, a).lastInstall == db.lastInstall
  {}

  lemma ActionAdvances(db: Database, a: Action, i: Id)
    requires Inv(db) && Enabled(db, a) && i in db.installs && i in Apply(db, a).installs
    ensures Advances(db.installs[i], Apply(db, a).installs[i])
  {
    hide ProfilesInv, PinsOk, MacsOk, InstallsOk, TokensOk, OneActive, StatusOk, StampsOk, IdsOk;
    if !TouchesInstalls(a) {
      OthersKeepInstalls(db, a);
    } else if a.Start? || a.Finish? {
      RowIsStamped(db, a.install);
      StatusAdvances(db, a, i);
    } else {
      OthersKeepRow(db, a, i);
    }
  }

  lemma StatusAdvances(db: Database, a: Action, i: Id)
    requires Enabled(db, a) && (a.Start? || a.Finish?) && i in db.installs && Stamped(db.installs[a.install])
    ensures i in Apply(db, a).installs && Advances(db.installs[i], Apply(db, a).installs[i])
  {}

  lemma OthersKeepRow(db: Database, a: Action, i: Id)
    requires IdsOk(db.installs.Keys, db.lastInstall) && Enabled(db, a) && (a.DropHost? || a.Queue? || a.Cancel?)
    requires i in db.installs && i in Apply(db, a).installs
    ensures Apply(db, a).installs[i] == db.installs[i]
  {}

  /** Installation ids are never reused. */
  lemma ActionNeverRevives(db: Database, a: Action, i: Id)
    requires Inv(db) && Enabled(db, a) && i !in db.installs && i <= db.lastInstall
    ensures i !in Apply(db, a).installs && i <= Apply(db, a).lastInstall
  {
    hide ProfilesInv, PinsOk, MacsOk, InstallsOk, TokensOk, OneActive, StampsOk, StatusOk;
    if !TouchesInstalls(a) { OthersKeepInstalls(db, a); }
  }

  // ------------------------------------------------------------------- runs

  ghost predicate Possible(db: Database, run: seq<Action>)
    decreases |run|
  {
    run == [] || (Enabled(db, run[0]) && Possible(Apply(db, run[0]), run[1..]))
  }

  ghost function Run(db: Database, run: seq<Action>): Database
    requires Possible(db, run)
    decreases |run|
  {
    if run == [] then db else Run(Apply(db, run[0]), run[1..])
  }

  lemma {:induction false} RunKeepsInv(db: Database, run: seq<Action>)
    requires Inv(db) && Possible(db, run)
    ensures Inv(Run(db, run))
    decreases |run|
  {
    if run != [] {
      ActionKeepsInv(db, run[0]);
      RunKeepsInv(Apply(db, run[0]), run[1..]);
    }
  }

  /** Whatever the handlers do from an empty database on. */
  lemma Reachable(run: seq<Action>)
    requires Possible(EMPTY, run)
    ensures Inv(Run(EMPTY, run))
  {
    EmptyInv();
    RunKeepsInv(EMPTY, run);
  }

  /** An installation that is gone stays gone. */
  lemma {:induction false} GoneForGood(db: Database, run: seq<Action>, i: Id)
    requires Inv(db) && Possible(db, run) && i !in db.installs && i <= db.lastInstall
    ensures i !in Run(db, run).installs
    decreases |run|
  {
    if run != [] {
      ActionKeepsInv(db, run[0]);
      ActionNeverRevives(db, run[0], i);
      GoneForGood(Apply(db, run[0]), run[1..], i);
    }
  }

  /** What an installation installs: its version row, the override aside. */
  function Installed(db: Database, i: Id): Version
    requires i in db.installs && db.installs[i].version in db.versions
  {
    db.versions[db.installs[i].version].(answerOverride := "")
  }

  /**
   History is accurate over every run: from any moment to any later one at which
   an installation still exists, it belongs to the same host, its status has only
   moved forward, and the config it installs is, to the letter, the same.
   */
  lemma {:induction false} HistoryIsImmutable(db: Database, run: seq<Action>, i: Id)
    requires Inv(db) && Possible(db, run) && i in db.installs && i in Run(db, run).installs
    ensures var e := Run(db, run);
      && Inv(e) && Advances(db.installs[i], e.installs[i]) && Installed(db, i) == Installed(e, i)
    decreases |run|
  {
    RunKeepsInv(db, run);
    if run != [] {
      var next := Apply(db, run[0]);
      ActionKeepsInv(db, run[0]);
      if i !in next.installs {
        IdBound(db, run[0], i);
        GoneForGood(next, run[1..], i);
      } else {
        ActionAdvances(db, run[0], i);
        assert Referenced(db.installs, db.installs[i].version);
        ReferencedIsFixed(db, run[0], db.installs[i].version);
        HistoryIsImmutable(next, run[1..], i);
      }
    }
  }

  lemma IdBound(db: Database, a: Action, i: Id)
    requires Inv(db) && Enabled(db, a) && i in db.installs
    ensures i <= Apply(db, a).lastInstall
  {
    if !TouchesInstalls(a) { OthersKeepInstalls(db, a); }
  }

  /** Success and error are final. */
  lemma FinalIsFinal(db: Database, run: seq<Action>, i: Id)
    requires Inv(db) && Possible(db, run) && i in db.installs && !Active(db.installs[i])
    requires i in Run(db, run).installs
    ensures Run(db, run).installs[i] == db.installs[i]
  {
    HistoryIsImmutable(db, run, i);
  }
}
