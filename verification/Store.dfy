/**
 The repositories over the tables. A method is one call into the store: its
 statements run one after the other, constraints are checked as SQLite checks
 them, and a transaction that fails puts the tables back.
 */
module Store {
  import opened Basics
  import opened Tables
  import opened Lifecycle

  datatype Error = NotFound | VersionInUse | ConstraintFailed

  datatype Result<+T> = Ok(value: T) | Err(error: Error)

  class Store {
    var isos: set<Id>
    var profiles: Profiles
    var versions: Versions
    var hosts: Hosts
    var installs: Installs
    var lastISO: Id
    var lastProfile: Id
    var lastVersion: Id
    var lastHost: Id
    var lastInstall: Id

    function Snapshot(): Database
      reads this
    {
      Database(isos, profiles, versions, hosts, installs, lastISO, lastProfile, lastVersion, lastHost, lastInstall)
    }

    constructor ()
      ensures Snapshot() == EMPTY
    {
      isos, profiles, versions, hosts, installs := {}, map[], map[], map[], map[];
      lastISO, lastProfile, lastVersion, lastHost, lastInstall := 0, 0, 0, 0, 0;
    }

    /** Puts the tables back, as a rollback does. */
    method Rollback(saved: Database)
      modifies this
      ensures Snapshot() == saved
    {
      isos, profiles, versions := saved.isos, saved.profiles, saved.versions;
      hosts, installs := saved.hosts, saved.installs;
      lastISO, lastProfile, lastVersion := saved.lastISO, saved.lastProfile, saved.lastVersion;
      lastHost, lastInstall := saved.lastHost, saved.lastInstall;
    }

    // ------------------------------------------------------------- profiles

    /** INSERT INTO profile_versions, refused when the pair is there already. */
    method InsertVersion(profile: Id, number: nat, config: string) returns (ok: bool)
      modifies this
      ensures ok <==> !HasVersion(old(versions), profile, number)
      ensures Snapshot() == if !ok then old(Snapshot()) else old(Snapshot()).(
        versions := old(versions)[old(lastVersion) + 1 := Version(profile, number, config, "")],
        lastVersion := old(lastVersion) + 1)
    {
      if HasVersion(versions, profile, number) {
        return false;
      }
      lastVersion := lastVersion + 1;
      versions := versions[lastVersion := Version(profile, number, config, "")];
      return true;
    }

    /** A profile together with its version 1, in one transaction. */
    method CreateProfile(name: string, provider: string, iso: Option<Id>, config: string) returns (r: Result<Id>)
      requires Inv(Snapshot())
      modifies this
      ensures var a := NewProfile(name, provider, iso, config);
        if Enabled(old(Snapshot()), a)
        then r == Ok(old(lastProfile) + 1) && Step(old(Snapshot()), a, Snapshot())
        else r == Err(ConstraintFailed) && Snapshot() == old(Snapshot())
      ensures r.Err? <==>
        (exists p :: p in old(profiles) && old(profiles)[p].name == name) || (iso.Some? && iso.value !in old(isos))
      ensures r.Ok? ==>
        && r.value !in old(profiles) && lastVersion !in old(versions)
        && profiles == old(profiles)[r.value := Profile(name, provider, iso, 1)]
        && versions == old(versions)[lastVersion := Version(r.value, 1, config, "")]
    {
      ghost var saved := Snapshot();
      if NameTaken(profiles, name, 0) || !ISOExists(isos, iso) {
        return Err(ConstraintFailed);
      }
      var id := lastProfile + 1;
      lastProfile := id;
      profiles := profiles[id := Profile(name, provider, iso, 1)];
      FreshProfileHasNoVersions(saved);
      FreshIds(saved);
      // A new profile has no version yet, so the second insert cannot clash.
      var _ := InsertVersion(id, 1, config);
      return Ok(id);
    }

    /** SELECT COALESCE (MAX (version), 0) + 1. */
    method NextVersionNumber(profile: Id) returns (next: nat)
      ensures next >= 1
      ensures forall v :: v in versions && versions[v].profile == profile ==> versions[v].number < next
      ensures next > 1 ==> HasVersion(versions, profile, next - 1)
    {
      next := 1;
      var rest := versions.Keys;
      while rest != {}
        invariant rest <= versions.Keys && next >= 1
        invariant forall v :: v in versions && v !in rest && versions[v].profile == profile ==>
          versions[v].number < next
        invariant next > 1 ==> HasVersion(versions, profile, next - 1)
        decreases rest
      {
        var v :| v in rest;
        rest := rest - {v};
        if versions[v].profile == profile && versions[v].number >= next {
          next := versions[v].number + 1;
          assert IsVersion(versions, v, profile, next - 1);
        }
      }
    }

    /** Snapshots config as the next version and makes it the current one. */
    method AppendProfileVersion(profile: Id, config: string) returns (r: Result<nat>)
      requires profile in profiles
      modifies this
      ensures r.Ok? && profiles == old(profiles)[profile := old(profiles)[profile].(current := r.value)]
      ensures r.Ok? && versions == old(versions)[old(lastVersion) + 1 := Version(profile, r.value, config, "")]
      ensures r.Ok? && ChangeOk(old(Snapshot()), profile, SaveAsNew(r.value, config))
      ensures Snapshot() == Changed(old(Snapshot()), profile, SaveAsNew(r.value, config))
    {
      var next := NextVersionNumber(profile);
      assert !HasVersion(versions, profile, next);
      var ok := InsertVersion(profile, next, config);
      profiles := profiles[profile := profiles[profile].(current := next)];
      return Ok(next);
    }

    /** Overwrites the current version's config, unless an installation refers to it. */
    method EditHeadVersion(profile: Id, config: string) returns (r: Result<Id>)
      requires profile in profiles
      requires VersionsOk(profiles, versions)
      modifies this
      ensures r.Ok? ==>
        && r.value in old(versions) && old(versions)[r.value].profile == profile
        && old(versions)[r.value].number == old(profiles)[profile].current && profiles == old(profiles)
        && versions == old(versions)[r.value := old(versions)[r.value].(config := config)]
      ensures r.Ok? ==>
        && ChangeOk(old(Snapshot()), profile, EditHead(r.value, config))
        && Snapshot() == Changed(old(Snapshot()), profile, EditHead(r.value, config))
      ensures r.Err? ==> r.error == VersionInUse && Snapshot() == old(Snapshot())
      ensures r.Err? <==> HeadReferenced(old(Snapshot()), profile)
      ensures r.Ok? ==> forall i :: i in installs ==> installs[i].version != r.value
    {
      HeadExists(Snapshot(), profile);
      var head :| head in versions && IsVersion(versions, head, profile, profiles[profile].current);
      if Referenced(installs, head) {
        return Err(VersionInUse);
      }
      versions := versions[head := versions[head].(config := config)];
      return Ok(head);
    }

    /**
     Metadata and, when given, a config: in place or as a new version. One
     transaction: a refused edit leaves name and ISO alone as well.
     */
    method UpdateProfile(id: Id, name: string, iso: Option<Id>, config: Option<string>, newVersion: bool)
      returns (r: Result<Change>)
      requires Inv(Snapshot())
      modifies this
      ensures r.Ok? ==>
        && Step(old(Snapshot()), EditProfile(id, name, iso, r.value), Snapshot())
        && (match config
            case None => r.value == KeepConfig
            case Some(c) => if newVersion then r.value.SaveAsNew? && r.value.config == c
                            else r.value.EditHead? && r.value.config == c)
      // The current version holds the new config: the same one in place, or the next one beside all old ones.
      ensures r.Ok? && config.Some? ==>
        && id in profiles && HasConfig(versions, id, profiles[id].current, config.value)
        && profiles[id].current == old(profiles)[id].current + (if newVersion then 1 else 0)
      ensures r.Ok? && config.Some? && newVersion ==>
        forall v :: v in old(versions) ==> v in versions && versions[v] == old(versions)[v]
      ensures r.Ok? && config == None ==> versions == old(versions) && profiles[id].current == old(profiles)[id].current
      ensures r.Ok? ==>
        && id in profiles && profiles[id].name == name && profiles[id].iso == iso
        && profiles[id].provider == old(profiles)[id].provider
      ensures r.Err? ==> Snapshot() == old(Snapshot())
      ensures r == Err(NotFound) <==> id !in old(profiles)
      ensures r == Err(ConstraintFailed) <==>
        id in old(profiles) && (NameTaken(old(profiles), name, id) || !ISOExists(old(isos), iso))
      ensures r == Err(VersionInUse) <==>
        && id in old(profiles) && !NameTaken(old(profiles), name, id) && ISOExists(old(isos), iso)
        && config.Some? && !newVersion && HeadReferenced(old(Snapshot()), id)
    {
      hide InstallsInv, PinsOk, MacsOk, IdsOk, ISOsOk, NamesOk, VersionsOk, IsVersion, Referenced, HasConfig;
      hide Changed, ChangeOk, NameTaken, ISOExists, HeadReferenced;
      var saved := Snapshot();
      if id !in profiles {
        return Err(NotFound);
      }
      if NameTaken(profiles, name, id) || !ISOExists(isos, iso) {
        return Err(ConstraintFailed);
      }
      profiles := profiles[id := profiles[id].(name := name, iso := iso)];
      assert Snapshot() == Renamed(saved, id, name, iso);
      RenamedSameChanges(saved, id, name, iso);
      if config == None {
        EditMeans(saved, id, name, iso, KeepConfig);
        return Ok(KeepConfig);
      }
      if newVersion {
        var next := AppendProfileVersion(id, config.value);
        EditMeans(saved, id, name, iso, SaveAsNew(next.value, config.value));
        return Ok(SaveAsNew(next.value, config.value));
      }
      var head := EditHeadVersion(id, config.value);
      if head.Err? {
        Rollback(saved);
        return Err(head.error);
      }
      EditMeans(saved, id, name, iso, EditHead(head.value, config.value));
      return Ok(EditHead(head.value, config.value));
    }

    /** Cascades to the versions, unassigns hosts, and fails while an installation needs a version. */
    method DeleteProfile(id: Id) returns (r: Result<()>)
      modifies this
      ensures r == Err(NotFound) <==> id !in old(profiles)
      ensures r == Err(ConstraintFailed) <==>
        id in old(profiles) && ProfileReferenced(old(installs), old(versions), id)
      ensures r.Err? ==> Snapshot() == old(Snapshot()) && r.error != VersionInUse
      ensures r.Ok? ==> Step(old(Snapshot()), DropProfile(id), Snapshot())
      ensures r.Ok? ==> forall i :: i in installs && installs[i].version in old(versions) ==>
        old(versions)[installs[i].version].profile != id
      ensures r.Ok? ==> profiles == old(profiles) - {id} && hosts.Keys == old(hosts).Keys
      ensures r.Ok? ==> forall v :: v in versions <==> v in old(versions) && old(versions)[v].profile != id
      ensures r.Ok? ==> forall v :: v in versions ==> versions[v] == old(versions)[v]
      ensures r.Ok? ==> forall h :: h in hosts ==>
        hosts[h] == if old(hosts)[h].profile == Some(id) then old(hosts)[h].(profile := None) else old(hosts)[h]
    {
      if id !in profiles {
        return Err(NotFound);
      }
      if ProfileReferenced(installs, versions, id) {
        return Err(ConstraintFailed);
      }
      profiles := profiles - {id};
      versions := map v | v in versions && versions[v].profile != id :: versions[v];
      hosts := map h | h in hosts :: WithoutProfile(hosts[h], id);
      return Ok(());
    }

    method SetAnswerOverride(profile: Id, number: nat, content: string) returns (r: Result<Id>)
      requires NumbersUnique(versions)
      modifies this
      ensures r.Ok? <==> HasVersion(old(versions), profile, number)
      ensures r.Ok? ==>
        && IsVersion(old(versions), r.value, profile, number)
        && versions == old(versions)[r.value := old(versions)[r.value].(answerOverride := content)]
        && Step(old(Snapshot()), Override(r.value, content), Snapshot())
      ensures r.Err? ==> r.error == NotFound && Snapshot() == old(Snapshot())
    {
      if !HasVersion(versions, profile, number) {
        return Err(NotFound);
      }
      var v :| v in versions && IsVersion(versions, v, profile, number);
      versions := versions[v := versions[v].(answerOverride := content)];
      return Ok(v);
    }

    // ---------------------------------------------------------------- hosts

    method CreateHost(h: Host) returns (r: Result<Id>)
      modifies this
      ensures r.Ok? <==> !MacTaken(old(hosts), h.mac, 0) && (h.profile.Some? ==> h.profile.value in old(profiles))
      ensures r.Ok? ==> forall o :: o in old(hosts) && o != 0 ==> old(hosts)[o].mac != h.mac
      ensures r.Ok? ==>
        && r.value == old(lastHost) + 1
        && Snapshot() == old(Snapshot()).(hosts := old(hosts)[old(lastHost) + 1 := h], lastHost := old(lastHost) + 1)
      ensures r.Err? ==> r.error == ConstraintFailed && Snapshot() == old(Snapshot())
    {
      if MacTaken(hosts, h.mac, 0) || (h.profile.Some? && h.profile.value !in profiles) {
        return Err(ConstraintFailed);
      }
      lastHost := lastHost + 1;
      hosts := hosts[lastHost := h];
      return Ok(lastHost);
    }

    /** Overwrites every mutable column with what the caller holds. */
    method UpdateHost(id: Id, h: Host) returns (r: Result<()>)
      modifies this
      ensures r == Err(NotFound) <==> id !in old(hosts)
      ensures r.Ok? <==>
        && id in old(hosts) && !MacTaken(old(hosts), h.mac, id)
        && (h.profile.Some? ==> h.profile.value in old(profiles))
      ensures r.Ok? ==> Snapshot() == old(Snapshot()).(hosts := old(hosts)[id := h])
      ensures r.Ok? ==> forall o :: o in old(hosts) && o != id ==> old(hosts)[o].mac != h.mac
      ensures r.Err? ==> Snapshot() == old(Snapshot()) && r.error != VersionInUse
    {
      if id !in hosts {
        return Err(NotFound);
      }
      if MacTaken(hosts, h.mac, id) || (h.profile.Some? && h.profile.value !in profiles) {
        return Err(ConstraintFailed);
      }
      hosts := hosts[id := h];
      return Ok(());
    }

    method DeleteHost(id: Id) returns (r: Result<()>)
      modifies this
      ensures r.Ok? <==> id in old(hosts)
      ensures r.Ok? ==> Step(old(Snapshot()), DropHost(id), Snapshot())
      ensures r.Ok? ==> hosts == old(hosts) - {id}
      ensures r.Ok? ==> forall i :: i in installs <==> i in old(installs) && old(installs)[i].host != id
      ensures r.Ok? ==> forall i :: i in installs ==> installs[i] == old(installs)[i]
      ensures r.Err? ==> r.error == NotFound && Snapshot() == old(Snapshot())
    {
      if id !in hosts {
        return Err(NotFound);
      }
      hosts := hosts - {id};
      installs := map i | i in installs && installs[i].host != id :: installs[i];
      return Ok(());
    }

    // -------------------------------------------------------- installations

    method CreateInstallation(host: Id, version: Id, token: string) returns (r: Result<Id>)
      modifies this
      ensures r.Ok? <==> host in hosts && version in versions
      ensures r.Ok? ==>
        && r.value == old(lastInstall) + 1
        && installs == old(installs)[r.value := Installation(host, version, Waiting, token, None, None, "")]
        && Snapshot() == WithInstall(old(Snapshot()), Queued(host, version, token))
      ensures r.Err? ==> r.error == ConstraintFailed && Snapshot() == old(Snapshot())
    {
      if host !in hosts || version !in versions {
        return Err(ConstraintFailed);
      }
      lastInstall := lastInstall + 1;
      installs := installs[lastInstall := Queued(host, version, token)];
      return Ok(lastInstall);
    }

    /** The newest waiting or installing installation of the host. */
    method ActiveInstallationForHost(host: Id) returns (r: Option<Id>)
      ensures r == None <==> !HasActive(installs, host)
      ensures r == None <==> forall i :: i in installs && installs[i].host == host ==>
        installs[i].status == Success || installs[i].status == Failed
      ensures r.Some? ==>
        && IsActiveOf(installs, r.value, host)
        && forall i :: i in installs && IsActiveOf(installs, i, host) ==> i <= r.value
    {
      r := None;
      var rest := installs.Keys;
      while rest != {}
        invariant rest <= installs.Keys
        invariant r == None ==> forall i :: i in installs && i !in rest ==> !IsActiveOf(installs, i, host)
        invariant r.Some? ==> IsActiveOf(installs, r.value, host)
        invariant r.Some? ==>
          forall i :: i in installs && i !in rest && IsActiveOf(installs, i, host) ==> i <= r.value
        decreases rest
      {
        var i :| i in rest;
        rest := rest - {i};
        if IsActiveOf(installs, i, host) && (r == None || i > r.value) {
          r := Some(i);
        }
      }
    }

    method InstallationByToken(token: string) returns (r: Option<Id>)
      ensures r == None <==> token == "" || !TokenKnown(installs, token)
      ensures r.Some? ==> r.value in installs && installs[r.value].token == token
    {
      if token == "" || !TokenKnown(installs, token) {
        return None;
      }
      var i :| i in installs && installs[i].token == token;
      return Some(i);
    }

    /** UPDATE ... WHERE status = 'waiting': silently nothing otherwise. */
    method MarkInstallationStarted(id: Id, now: int)
      modifies this
      ensures Snapshot() == if id in old(installs) && old(installs)[id].status == Waiting
        then old(Snapshot()).(installs :=
          old(installs)[id := old(installs)[id].(status := Installing, startedAt := Some(now))])
        else old(Snapshot())
    {
      if id in installs && installs[id].status == Waiting {
        installs := installs[id := installs[id].(status := Installing, startedAt := Some(now))];
      }
    }

    /** Records the final state, whatever the state before, and appends to the log. */
    method MarkInstallationFinished(id: Id, status: Status, logLine: string, now: int) returns (ok: bool)
      modifies this
      ensures ok <==> status == Success || status == Failed
      ensures Snapshot() == if ok && id in old(installs)
        then old(Snapshot()).(installs :=
          old(installs)[id := old(installs)[id].(
            status := status, finishedAt := Some(now), log := old(installs)[id].log + logLine)])
        else old(Snapshot())
    {
      if status != Success && status != Failed {
        return false;
      }
      if id in installs {
        var row := installs[id];
        installs := installs[id := row.(status := status, finishedAt := Some(now), log := row.log + logLine)];
      }
      return true;
    }

    /** Only waiting installations may be deleted. */
    method DeleteInstallation(id: Id) returns (r: Result<()>)
      modifies this
      ensures r.Ok? <==> Enabled(old(Snapshot()), Cancel(id))
      ensures r.Ok? ==> Step(old(Snapshot()), Cancel(id), Snapshot())
      ensures r.Ok? <==> id in old(installs) && old(installs)[id].status == Waiting
      ensures r.Ok? ==> installs == old(installs) - {id}
      ensures r.Err? ==> r.error == NotFound && Snapshot() == old(Snapshot())
    {
      if id !in installs || installs[id].status != Waiting {
        return Err(NotFound);
      }
      installs := installs - {id};
      return Ok(());
    }

    // ----------------------------------------------------------------- ISOs

    method CreateISO() returns (id: Id)
      modifies this
      ensures Step(old(Snapshot()), AddISO, Snapshot()) && id == lastISO
    {
      lastISO := lastISO + 1;
      isos := isos + {lastISO};
      return lastISO;
    }

    /** Profiles that used the ISO keep working without one. */
    method DeleteISO(id: Id) returns (r: Result<()>)
      modifies this
      ensures r.Ok? <==> id in old(isos)
      ensures r.Ok? ==> Step(old(Snapshot()), DropISO(id), Snapshot())
      ensures r.Ok? ==> isos == old(isos) - {id} && profiles.Keys == old(profiles).Keys
      ensures r.Ok? ==> forall p :: p in profiles ==>
        profiles[p] == if old(profiles)[p].iso == Some(id) then old(profiles)[p].(iso := None) else old(profiles)[p]
      ensures r.Err? ==> r.error == NotFound && Snapshot() == old(Snapshot())
    {
      if id !in isos {
        return Err(NotFound);
      }
      isos := isos - {id};
      profiles := map p | p in profiles :: WithoutISO(profiles[p], id);
      return Ok(());
    }
  }

  /** Version `number` of the profile exists and holds this config. */
  ghost predicate HasConfig(vs: Versions, p: Id, number: nat, config: string) {
    exists v :: v in vs && vs[v].profile == p && vs[v].number == number && vs[v].config == config
  }

  /**
   What an edit does to the tables. The current version afterwards holds the
   config given: it is the same version in place, or the next one, and then all
   old versions are as they were.
   */
  lemma EditMeans(db: Database, p: Id, name: string, iso: Option<Id>, c: Change)
    requires Inv(db) && Enabled(db, EditProfile(p, name, iso, c))
    ensures var e := Apply(db, EditProfile(p, name, iso, c)); var old', new' := db.profiles[p], e.profiles[p];
      && new' == Profile(name, old'.provider, iso, old'.current + (if c.SaveAsNew? then 1 else 0))
      && (!c.KeepConfig? ==> HasConfig(e.versions, p, new'.current, c.config))
      && (c.SaveAsNew? ==> forall v :: v in db.versions ==> v in e.versions && e.versions[v] == db.versions[v])
      && (c.EditHead? ==> e.versions.Keys == db.versions.Keys)
      && (c.EditHead? ==> forall v :: v in db.versions && v != c.head ==> e.versions[v] == db.versions[v])
      && (c.KeepConfig? ==> e.versions == db.versions)
  {
    hide InstallsInv, PinsOk, MacsOk, ISOsOk, NamesOk, VersionsOk, NameTaken, Referenced;
    var e := Apply(db, EditProfile(p, name, iso, c));
    match c
    case KeepConfig =>
    case EditHead(head, config) =>
      assert head in e.versions && e.versions[head].config == config;
    case SaveAsNew(number, config) =>
      NextNumber(db.profiles, db.versions, p, number);
      assert e.versions[db.lastVersion + 1] == Version(p, number, config, "");
  }

  lemma FreshIds(db: Database)
    requires Inv(db)
    ensures db.lastProfile + 1 !in db.profiles && db.lastVersion + 1 !in db.versions
  {}

  /** Some installation points at the current version of the profile. */
  ghost predicate HeadReferenced(db: Database, p: Id)
    requires p in db.profiles
  {
    exists v :: v in db.versions && IsVersion(db.versions, v, p, db.profiles[p].current) && Referenced(db.installs, v)
  }

  lemma HeadExists(db: Database, p: Id)
    requires VersionsOk(db.profiles, db.versions) && p in db.profiles
    ensures HasVersion(db.versions, p, db.profiles[p].current)
  {}

  lemma FreshProfileHasNoVersions(db: Database)
    requires Inv(db)
    ensures !HasVersion(db.versions, db.lastProfile + 1, 1)
  {}

  /** Renaming changes neither what edits are allowed nor the numbering. */
  lemma RenamedSameChanges(db: Database, p: Id, name: string, iso: Option<Id>)
    requires Inv(db) && p in db.profiles
    ensures forall c :: ChangeOk(Renamed(db, p, name, iso), p, c) <==> ChangeOk(db, p, c)
    ensures ChangeOk(db, p, KeepConfig)
    ensures Changed(Renamed(db, p, name, iso), p, KeepConfig) == Renamed(db, p, name, iso)
    ensures HeadReferenced(Renamed(db, p, name, iso), p) <==> HeadReferenced(db, p)
    ensures VersionsOk(Renamed(db, p, name, iso).profiles, db.versions)
  {}
}
