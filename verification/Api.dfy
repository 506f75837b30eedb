/**
 The REST handlers that change hosts, profiles and installations. One handler is
 one atomic step; decoding, MAC parsing, template parsing and config validation
 arrive as their outcomes.
 */
module Api {
  import opened Basics
  import opened Tables
  import opened Lifecycle
  import Store

  datatype Reply =
    | Created(id: Id)
    | Done
    | BadRequest(code: string)
    | Missing
    | Conflict(code: string)
    | Unprocessable
    | InternalError

  /** The profile an installation is queued for: the request's, else the host's. */
  function Chosen(h: Host, requested: Option<Id>): Option<Id> {
    if requested.Some? then requested else h.profile
  }

  /** Its version: the host's pin for the host's profile, the current one for an explicit choice. */
  function ChosenNumber(h: Host, p: Profile, requested: Option<Id>): int {
    if requested == None && h.pin > 0 then h.pin else p.current
  }

  /** A host's profile, or any existing profile, has the version that would be queued. */
  lemma ChosenVersionExists(db: Database, h: Id, requested: Option<Id>)
    requires Inv(db) && h in db.hosts && Chosen(db.hosts[h], requested).Some?
    requires Chosen(db.hosts[h], requested).value in db.profiles
    ensures var p := Chosen(db.hosts[h], requested).value;
      HasVersion(db.versions, p, ChosenNumber(db.hosts[h], db.profiles[p], requested))
  {}

  /** Deleting a profile leaves its number behind on hosts; without a profile it is never looked at. */
  lemma StalePinIsHarmless(db: Database, p: Id, h: Id)
    requires Inv(db) && Enabled(db, DropProfile(p)) && h in db.hosts && db.hosts[h].profile == Some(p)
    ensures var e := Apply(db, DropProfile(p));
      && Inv(e) && h in e.hosts && e.hosts[h].profile == None && e.hosts[h].pin == db.hosts[h].pin >= 1
      && forall q :: q in e.profiles ==> ChosenNumber(e.hosts[h], e.profiles[q], Some(q)) == e.profiles[q].current
  {
    ActionKeepsInv(db, DropProfile(p));
    assert PinOk(db.profiles, db.versions, db.hosts[h].profile, db.hosts[h].pin);
    var v :| v in db.versions && IsVersion(db.versions, v, p, db.hosts[h].pin);
  }

  /** The pin a host request ends up with. */
  function ResolvedPin(db: Database, profile: Option<Id>, pin: int): int {
    match profile
    case None => 0
    case Some(p) => if pin == 0 && p in db.profiles then db.profiles[p].current else pin
  }

  class Server {
    const store: Store.Store
    const providers: set<string>

    ghost predicate Valid()
      reads store
    {
      Inv(store.Snapshot())
    }

    constructor (store: Store.Store, providers: set<string>)
      ensures this.store == store && this.providers == providers
    {
      this.store, this.providers := store, providers;
    }

    // -------------------------------------------------------- installations

    /** Queues an installation. The version lookup never fails, so there is no internal error. */
    method HandleCreateInstallation(hostID: Id, requested: Option<Id>, token: string) returns (r: Reply, ghost v: Id)
      requires Valid() && token != "" && !TokenKnown(store.installs, token)
      modifies store
      ensures Valid()
      ensures r == BadRequest("installation.unknown_host") <==> hostID !in old(store.hosts)
      ensures r == BadRequest("installation.no_profile") <==>
        hostID in old(store.hosts) && Chosen(old(store.hosts)[hostID], requested) == None
      ensures r == BadRequest("installation.unknown_profile") <==>
        hostID in old(store.hosts) && requested.Some? && requested.value !in old(store.profiles)
      ensures r.Conflict? <==>
        && hostID in old(store.hosts) && Chosen(old(store.hosts)[hostID], requested).Some?
        && Chosen(old(store.hosts)[hostID], requested).value in old(store.profiles)
        && HasActive(old(store.installs), hostID)
      ensures r.Created? || r.Conflict? || r.BadRequest?
      ensures !r.Created? ==> store.Snapshot() == old(store.Snapshot())
      ensures r.Created? ==> r.id == store.lastInstall
      ensures r.Created? ==> Step(old(store.Snapshot()), Queue(hostID, v, token), store.Snapshot())
      ensures r.Created? ==> Pinned(old(store.Snapshot()), hostID, requested, v)
      // Without a profile in the request: exactly what the host pins, however far the profile has moved on.
      ensures r.Created? && requested == None ==>
        && v in old(store.versions) && Some(old(store.versions)[v].profile) == old(store.hosts)[hostID].profile
        && old(store.versions)[v].number == old(store.hosts)[hostID].pin
      // With one: the current version of that profile.
      ensures r.Created? && requested.Some? ==>
        && v in old(store.versions) && old(store.versions)[v].profile == requested.value
        && old(store.versions)[v].number == old(store.profiles)[requested.value].current
      ensures r.Created? ==>
        && r.id !in old(store.installs)
        && store.installs
             == old(store.installs)[r.id := Installation(hostID, v, Waiting, token, None, None, "")]
      // At most one installation of a host is under way.
      ensures r.Created? ==> forall i :: i in old(store.installs) && old(store.installs)[i].host == hostID ==>
        old(store.installs)[i].status == Success || old(store.installs)[i].status == Failed
    {
      hide ProfilesInv, InstallsInv, PinsOk, MacsOk, IdsOk, TokenKnown, Inv;
      v := 0;
      ghost var before := store.Snapshot();
      if hostID !in store.hosts {
        return BadRequest("installation.unknown_host"), v;
      }
      var host := store.hosts[hostID];
      var profileID := host.profile;
      if requested.Some? {
        profileID := requested;
      }
      if profileID == None {
        return BadRequest("installation.no_profile"), v;
      }
      if host.profile.Some? { HostProfileExists(before, hostID); }
      FreshInstallId(before);
      if profileID.value !in store.profiles {
        return BadRequest("installation.unknown_profile"), v;
      }
      var profile := store.profiles[profileID.value];
      var active := store.ActiveInstallationForHost(hostID);
      if active.Some? {
        return Conflict("installation.already_active"), v;
      }
      var versionNumber := profile.current;
      if requested == None && host.pin > 0 {
        versionNumber := host.pin;
      }
      ChosenVersionExists(before, hostID, requested);
      if !HasVersion(store.versions, profileID.value, versionNumber) {
        return InternalError, v;
      }
      var version :| version in store.versions && IsVersion(store.versions, version, profileID.value, versionNumber);
      v := version;
      var inst := store.CreateInstallation(hostID, version, token);
      StepKeepsInv(before, Queue(hostID, v, token), store.Snapshot());
      r := Created(inst.value);
    }

    /** The version queued is the one pinned by the host, or the current one of an explicit profile. */
    predicate Pinned(db: Database, h: Id, requested: Option<Id>, v: Id) {
      && h in db.hosts && Chosen(db.hosts[h], requested).Some?
      && var p := Chosen(db.hosts[h], requested).value;
         p in db.profiles && IsVersion(db.versions, v, p, ChosenNumber(db.hosts[h], db.profiles[p], requested))
    }

    /** Cancels a waiting installation; running and finished ones are history. */
    method HandleDeleteInstallation(id: Id) returns (r: Reply)
      requires Valid()
      modifies store
      ensures Valid()
      ensures r == Missing <==> id !in old(store.installs)
      ensures r.Conflict? <==> id in old(store.installs) && old(store.installs)[id].status != Waiting
      ensures r == Done || r == Missing || r.Conflict?
      ensures if r == Done then Step(old(store.Snapshot()), Cancel(id), store.Snapshot())
              else store.Snapshot() == old(store.Snapshot())
    {
      hide ProfilesInv, InstallsInv, PinsOk, MacsOk, IdsOk;
      ghost var before := store.Snapshot();
      if id !in store.installs {
        return Missing;
      }
      var deleted := store.DeleteInstallation(id);
      if deleted.Err? {
        return Conflict("installation.not_cancellable");
      }
      StepKeepsInv(before, Cancel(id), store.Snapshot());
      return Done;
    }

    // ---------------------------------------------------------------- hosts

    /** Validates an assignment and settles the pin; an error code, or none. */
    method ResolveProfilePin(profile: Option<Id>, pin: int) returns (error: Option<string>, resolved: int)
      requires Valid()
      ensures error == None <==>
        PinOk(store.profiles, store.versions, profile, ResolvedPin(store.Snapshot(), profile, pin))
      ensures error == None ==> resolved == ResolvedPin(store.Snapshot(), profile, pin)
      // No version asked for: the one that is current now. Any other number is taken as it is.
      ensures error == None && profile == None ==> resolved == 0
      ensures error == None && profile.Some? && pin == 0 ==>
        profile.value in store.profiles && resolved == store.profiles[profile.value].current
      ensures error == None && profile.Some? && pin != 0 ==> resolved == pin
      ensures error == Some("host.unknown_profile") <==> profile.Some? && profile.value !in store.profiles
    {
      if profile == None {
        return None, 0;
      }
      if profile.value !in store.profiles {
        return Some("host.unknown_profile"), pin;
      }
      if pin == 0 {
        Store.HeadExists(store.Snapshot(), profile.value);
        return None, store.profiles[profile.value].current;
      }
      if !HasVersion(store.versions, profile.value, pin) {
        return Some("host.unknown_profile_version"), pin;
      }
      return None, pin;
    }

    /** Registers a machine. `mac` is the normalized form, None when it does not parse. */
    method HandleCreateHost(mac: Option<string>, hostname: string, firmwareOk: bool, profile: Option<Id>, pin: int)
      returns (r: Reply)
      requires Valid()
      modifies store
      ensures Valid()
      ensures r.Created? <==>
        mac.Some? && firmwareOk && HostRequestOk(old(store.Snapshot()), 0, mac.value, profile, pin)
      ensures r.Created? ==> Step(old(store.Snapshot()),
        NewHost(mac.value, hostname, profile, ResolvedPin(old(store.Snapshot()), profile, pin), Ready),
        store.Snapshot())
      ensures r.Created? ==> r.id in store.hosts && store.hosts[r.id] == Host(mac.value, hostname, profile,
        if profile == None then 0 else if pin != 0 then pin else old(store.profiles)[profile.value].current, Ready)
      ensures r.Conflict? <==>
        && mac.Some? && firmwareOk && MacTaken(old(store.hosts), mac.value, 0)
        && PinOk(old(store.profiles), old(store.versions), profile, ResolvedPin(old(store.Snapshot()), profile, pin))
      ensures r.Created? || r.BadRequest? || r.Conflict?
      ensures !r.Created? ==> store.Snapshot() == old(store.Snapshot())
    {
      hide ProfilesInv, InstallsInv, PinsOk, MacsOk, IdsOk;
      ghost var before := store.Snapshot();
      if mac == None {
        return BadRequest("host.invalid_mac");
      }
      if !firmwareOk {
        return BadRequest("host.invalid_firmware");
      }
      var error, resolved := ResolveProfilePin(profile, pin);
      if error.Some? {
        return BadRequest(error.value);
      }
      if MacTaken(store.hosts, mac.value, 0) {
        return Conflict("host.mac_exists");
      }
      var h := store.CreateHost(Host(mac.value, hostname, profile, resolved, Ready));
      StepKeepsInv(before, NewHost(mac.value, hostname, profile, resolved, Ready), store.Snapshot());
      return Created(h.value);
    }

    /** The MAC is free and the assignment, once the pin is settled, names an existing version. */
    predicate HostRequestOk(db: Database, self: Id, mac: string, profile: Option<Id>, pin: int) {
      !MacTaken(db.hosts, mac, self) && PinOk(db.profiles, db.versions, profile, ResolvedPin(db, profile, pin))
    }

    /** Rewrites a host; its status stays. A MAC taken by another host surfaces as an internal error. */
    method HandleUpdateHost(id: Id, mac: Option<string>, hostname: string, firmwareOk: bool, profile: Option<Id>,
                            pin: int) returns (r: Reply)
      requires Valid()
      modifies store
      ensures Valid()
      ensures r == Missing <==> id !in old(store.hosts)
      ensures r == Done <==>
        && id in old(store.hosts) && mac.Some? && firmwareOk
        && HostRequestOk(old(store.Snapshot()), id, mac.value, profile, pin)
      ensures r == InternalError <==>
        && id in old(store.hosts) && mac.Some? && firmwareOk && MacTaken(old(store.hosts), mac.value, id)
        && PinOk(old(store.profiles), old(store.versions), profile, ResolvedPin(old(store.Snapshot()), profile, pin))
      ensures r == Done || r == Missing || r == InternalError || r.BadRequest?
      ensures r == Done ==> Step(old(store.Snapshot()),
        EditHost(id, mac.value, hostname, profile, ResolvedPin(old(store.Snapshot()), profile, pin)), store.Snapshot())
      ensures r == Done ==> id in store.hosts && store.hosts[id] == Host(mac.value, hostname, profile,
        if profile == None then 0 else if pin != 0 then pin else old(store.profiles)[profile.value].current,
        old(store.hosts)[id].status)
      ensures r != Done ==> store.Snapshot() == old(store.Snapshot())
    {
      hide ProfilesInv, InstallsInv, PinsOk, MacsOk, IdsOk;
      ghost var before := store.Snapshot();
      if id !in store.hosts {
        return Missing;
      }
      var row := store.hosts[id];
      if mac == None {
        return BadRequest("host.invalid_mac");
      }
      if !firmwareOk {
        return BadRequest("host.invalid_firmware");
      }
      var error, resolved := ResolveProfilePin(profile, pin);
      if error.Some? {
        return BadRequest(error.value);
      }
      row := row.(mac := mac.value, hostname := hostname, profile := profile, pin := resolved);
      var updated := store.UpdateHost(id, row);
      if updated.Err? {
        return InternalError;
      }
      StepKeepsInv(before, EditHost(id, mac.value, hostname, profile, resolved), store.Snapshot());
      return Done;
    }

    method HandleDeleteHost(id: Id) returns (r: Reply)
      requires Valid()
      modifies store
      ensures Valid()
      ensures r == Done || r == Missing
      ensures r == Done ==> Step(old(store.Snapshot()), DropHost(id), store.Snapshot())
      ensures r == Missing ==> id !in old(store.hosts) && store.Snapshot() == old(store.Snapshot())
    {
      hide ProfilesInv, InstallsInv, PinsOk, MacsOk, IdsOk;
      ghost var before := store.Snapshot();
      var deleted := store.DeleteHost(id);
      if deleted.Err? {
        return Missing;
      }
      StepKeepsInv(before, DropHost(id), store.Snapshot());
      return Done;
    }

    // ------------------------------------------------------------- profiles

    /** `config` is None when the request has none; `configOk` is the schema's verdict on it. */
    method HandleCreateProfile(name: string, provider: string, iso: Option<Id>, config: Option<string>, configOk: bool)
      returns (r: Reply)
      requires Valid()
      modifies store
      ensures Valid()
      ensures r.BadRequest? <==> name == "" || provider !in providers || (config.Some? && !configOk)
      ensures r == InternalError <==>
        !r.BadRequest? && (NameTaken(old(store.profiles), name, 0) || !ISOExists(old(store.isos), iso))
      ensures r.Created? || r.BadRequest? || r == InternalError
      ensures r.Created? ==> Step(old(store.Snapshot()),
        NewProfile(name, provider, iso, if config.Some? then config.value else "{}"), store.Snapshot())
      ensures !r.Created? ==> store.Snapshot() == old(store.Snapshot())
    {
      hide ProfilesInv, InstallsInv, PinsOk, MacsOk, IdsOk;
      ghost var before := store.Snapshot();
      if name == "" {
        return BadRequest("profile.invalid_name");
      }
      if provider !in providers {
        return BadRequest("profile.unknown_provider");
      }
      var text := "{}";
      if config.Some? {
        if !configOk {
          return BadRequest("profile.invalid_config_field");
        }
        text := config.value;
      }
      var created := store.CreateProfile(name, provider, iso, text);
      if created.Err? {
        return InternalError;
      }
      StepKeepsInv(before, NewProfile(name, provider, iso, text), store.Snapshot());
      return Created(created.value);
    }

    /** An edit refused because the version is in use changes nothing, not even the name. */
    method HandleUpdateProfile(id: Id, name: string, iso: Option<Id>, config: Option<string>, configOk: bool,
                               saveAsNewVersion: bool) returns (r: Reply, ghost c: Change)
      requires Valid()
      modifies store
      ensures Valid()
      ensures r == Missing <==> id !in old(store.profiles)
      ensures r.BadRequest? <==> id in old(store.profiles) && (name == "" || (config.Some? && !configOk))
      ensures r.Conflict? <==>
        && id in old(store.profiles) && name != "" && config.Some? && configOk && !saveAsNewVersion
        && !NameTaken(old(store.profiles), name, id) && ISOExists(old(store.isos), iso)
        && Store.HeadReferenced(old(store.Snapshot()), id)
      ensures r == InternalError <==>
        && id in old(store.profiles) && name != "" && !(config.Some? && !configOk)
        && (NameTaken(old(store.profiles), name, id) || !ISOExists(old(store.isos), iso))
      ensures r == Done || r == Missing || r == InternalError || r.BadRequest? || r.Conflict?
      ensures r == Done ==> Step(old(store.Snapshot()), EditProfile(id, name, iso, c), store.Snapshot())
      ensures r == Done ==> match config
        case None => c == KeepConfig
        case Some(text) => !c.KeepConfig? && c.config == text && (c.SaveAsNew? <==> saveAsNewVersion)
      ensures r == Done && config.Some? ==>
        && id in store.profiles
        && Store.HasConfig(store.versions, id, store.profiles[id].current, config.value)
        && store.profiles[id].current == old(store.profiles)[id].current + (if saveAsNewVersion then 1 else 0)
      ensures r != Done ==> store.Snapshot() == old(store.Snapshot())
    {
      hide ProfilesInv, InstallsInv, PinsOk, MacsOk, IdsOk;
      c := KeepConfig;
      ghost var before := store.Snapshot();
      if id !in store.profiles {
        return Missing, c;
      }
      if name == "" {
        return BadRequest("profile.invalid_name"), c;
      }
      if config.Some? && !configOk {
        return BadRequest("profile.invalid_config_field"), c;
      }
      var updated := store.UpdateProfile(id, name, iso, config, saveAsNewVersion);
      if updated.Err? {
        if updated.error == Store.VersionInUse {
          return Conflict("profile.version_in_use"), c;
        }
        return InternalError, c;
      }
      c := updated.value;
      StepKeepsInv(before, EditProfile(id, name, iso, c), store.Snapshot());
      return Done, c;
    }

    method HandleDeleteProfile(id: Id) returns (r: Reply)
      requires Valid()
      modifies store
      ensures Valid()
      ensures r == Missing <==> id !in old(store.profiles)
      ensures r == InternalError <==>
        id in old(store.profiles) && ProfileReferenced(old(store.installs), old(store.versions), id)
      ensures r == Done || r == Missing || r == InternalError
      ensures if r == Done then Step(old(store.Snapshot()), DropProfile(id), store.Snapshot())
              else store.Snapshot() == old(store.Snapshot())
    {
      hide ProfilesInv, InstallsInv, PinsOk, MacsOk, IdsOk;
      ghost var before := store.Snapshot();
      var deleted := store.DeleteProfile(id);
      if deleted.Err? {
        return if deleted.error == Store.NotFound then Missing else InternalError;
      }
      StepKeepsInv(before, DropProfile(id), store.Snapshot());
      return Done;
    }

    /** The clone starts at version 1 with the source's current config; that lookup never fails. */
    method HandleCloneProfile(id: Id, requested: string) returns (r: Reply, ghost head: Id)
      requires Valid()
      modifies store
      ensures Valid()
      ensures r == Missing <==> id !in old(store.profiles)
      ensures r.Created? || r == Missing || r.Conflict?
      ensures r.Conflict? <==>
        id in old(store.profiles) && NameTaken(old(store.profiles), CloneName(old(store.profiles)[id], requested), 0)
      ensures r.Created? ==> IsHead(old(store.Snapshot()), id, head)
      ensures r.Created? ==>
        && store.profiles == old(store.profiles)[r.id := Profile(
             if requested == "" then old(store.profiles)[id].name + " (copy)" else requested,
             old(store.profiles)[id].provider, old(store.profiles)[id].iso, 1)]
        && head in old(store.versions) && old(store.versions)[head].profile == id
        && old(store.versions)[head].number == old(store.profiles)[id].current
        && Store.HasConfig(store.versions, r.id, 1, old(store.versions)[head].config)
      ensures r.Created? ==> Step(old(store.Snapshot()),
        NewProfile(CloneName(old(store.profiles)[id], requested), old(store.profiles)[id].provider,
                   old(store.profiles)[id].iso, old(store.versions)[head].config), store.Snapshot())
      ensures !r.Created? ==> store.Snapshot() == old(store.Snapshot())
    {
      hide ProfilesInv, InstallsInv, PinsOk, MacsOk, IdsOk;
      head := 0;
      ghost var before := store.Snapshot();
      if id !in store.profiles {
        return Missing, head;
      }
      CanBeCloned(before, id);
      var source := store.profiles[id];
      var name := requested;
      if name == "" {
        name := source.name + " (copy)";
      }
      if !HasVersion(store.versions, id, source.current) {
        return InternalError, head;
      }
      var v :| v in store.versions && IsVersion(store.versions, v, id, source.current);
      head := v;
      var config := store.versions[v].config;
      var clone := store.CreateProfile(name, source.provider, source.iso, config);
      if clone.Err? {
        return Conflict("profile.name_exists"), head;
      }
      StepKeepsInv(before, NewProfile(name, source.provider, source.iso, config), store.Snapshot());
      assert store.versions[store.lastVersion].config == config;
      return Created(clone.value), head;
    }

    function CloneName(source: Profile, requested: string): string {
      if requested == "" then source.name + " (copy)" else requested
    }

    predicate IsHead(db: Database, p: Id, v: Id) {
      p in db.profiles && IsVersion(db.versions, v, p, db.profiles[p].current)
    }

    /** Sets or clears the override of one version; the config column is not touched. */
    method HandleSetAnswerOverride(id: Id, number: int, content: string, renders: bool) returns (r: Reply, ghost v: Id)
      requires Valid()
      modifies store
      ensures Valid()
      ensures r == Missing <==>
        number >= 1 && !(id in old(store.profiles) && HasVersion(old(store.versions), id, number))
      ensures r == Unprocessable <==>
        && number >= 1 && id in old(store.profiles) && HasVersion(old(store.versions), id, number)
        && content != "" && !renders
      ensures r == Done ==> IsVersion(old(store.versions), v, id, number)
      ensures r == Done ==> Step(old(store.Snapshot()), Override(v, content), store.Snapshot())
      ensures r == Done || r == Missing || r == Unprocessable || r.BadRequest?
      ensures r != Done ==> store.Snapshot() == old(store.Snapshot())
    {
      v := 0;
      ghost var before := store.Snapshot();
      assert NumbersUnique(store.versions);
      hide ProfilesInv, InstallsInv, PinsOk, MacsOk, IdsOk;
      if number < 1 {
        return BadRequest("validation.invalid_id"), v;
      }
      if id !in store.profiles || !HasVersion(store.versions, id, number) {
        return Missing, v;
      }
      if content != "" && !renders {
        return Unprocessable, v;
      }
      var set' := store.SetAnswerOverride(id, number, content);
      v := set'.value;
      StepKeepsInv(before, Override(v, content), store.Snapshot());
      return Done, v;
    }

    /** Removing an ISO unassigns it from every profile. */
    method HandleDeleteISO(id: Id) returns (r: Reply)
      requires Valid()
      modifies store
      ensures Valid()
      ensures r == Done || r == Missing
      ensures if r == Done then Step(old(store.Snapshot()), DropISO(id), store.Snapshot())
              else id !in old(store.isos) && store.Snapshot() == old(store.Snapshot())
    {
      hide ProfilesInv, InstallsInv, PinsOk, MacsOk, IdsOk;
      ghost var before := store.Snapshot();
      var deleted := store.DeleteISO(id);
      if deleted.Err? {
        return Missing;
      }
      StepKeepsInv(before, DropISO(id), store.Snapshot());
      return Done;
    }
  }

  lemma HostProfileExists(db: Database, h: Id)
    requires Inv(db) && h in db.hosts && db.hosts[h].profile.Some?
    ensures db.hosts[h].profile.value in db.profiles && db.hosts[h].pin >= 1
  {
    assert PinOk(db.profiles, db.versions, db.hosts[h].profile, db.hosts[h].pin);
  }

  lemma CanBeCloned(db: Database, p: Id)
    requires Inv(db) && p in db.profiles
    ensures HasVersion(db.versions, p, db.profiles[p].current) && ISOExists(db.isos, db.profiles[p].iso)
  {
    Store.HeadExists(db, p);
  }

  lemma FreshInstallId(db: Database)
    requires Inv(db)
    ensures db.lastInstall + 1 !in db.installs
  {}
}
