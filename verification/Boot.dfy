/** The unauthenticated boot endpoints: scripts, token-scoped context and status reports. */
module Boot {
  import opened Basics
  import opened Tables
  import opened Lifecycle
  import opened BootScript
  import Store

  /** Everything needed to boot one installation. */
  datatype Context = Context(host: Id, install: Id, version: Id, profile: Id, iso: Id)

  type Registry = map<string, BootManifest>

  /** The template engine: template text, config text and parameters to a trimmed result, None being its error. */
  type Template = (string, string, Params) -> Option<string>

  /** The chain host, installation, version, profile, provider, ISO, as the tables have it. */
  predicate Resolves(db: Database, reg: Registry, ic: Context) {
    && ic.host in db.hosts
    && IsActiveOf(db.installs, ic.install, ic.host)
    && db.installs[ic.install].version == ic.version && ic.version in db.versions
    && db.versions[ic.version].profile == ic.profile && ic.profile in db.profiles
    && db.profiles[ic.profile].provider in reg
    && db.profiles[ic.profile].iso == Some(ic.iso) && ic.iso in db.isos
  }

  /** An installation whose provider is loaded and whose profile has an ISO. */
  predicate Bootable(db: Database, reg: Registry, i: Id) {
    && i in db.installs && db.installs[i].version in db.versions
    && var p := db.versions[db.installs[i].version].profile;
       p in db.profiles && db.profiles[p].provider in reg && db.profiles[p].iso.Some?
  }

  predicate IsInstalling(ins: Installs, i: Id) { i in ins && ins[i].status == Installing }

  predicate HasBootable(db: Database, reg: Registry, host: Id) {
    exists i :: i in db.installs && IsActiveOf(db.installs, i, host) && Bootable(db, reg, i)
  }

  /** The token's installation belongs to a host with something to boot. */
  predicate IsServed(db: Database, reg: Registry, i: Id, token: string) {
    i in db.installs && db.installs[i].token == token && HasBootable(db, reg, db.installs[i].host)
  }

  /** The context is of the token's host, and the token's own just when its own is active. */
  predicate IsScoped(db: Database, own: Id, token: string, ic: Context) {
    && own in db.installs && db.installs[own].token == token && db.installs[own].host == ic.host
    && (ic.install == own <==> Active(db.installs[own]))
  }

  /** The installation a token was made for, and no other, carries it. */
  lemma TokenOwner(db: Database, i: Id, j: Id)
    requires Inv(db) && i in db.installs && j in db.installs && db.installs[i].token == db.installs[j].token
    ensures i == j
  {}

  /**
   What a token scopes. The endpoints go from the token to its installation, on
   to the host, and from there to the host's active installation; that is the
   token's own exactly while its own is waiting or installing.
   */
  lemma TokenFindsOwnIff(db: Database, own: Id, found: Id)
    requires Inv(db) && own in db.installs && IsActiveOf(db.installs, found, db.installs[own].host)
    ensures found == own <==> Active(db.installs[own])
  {}

  /** Once its installation is over, a token reaches whatever is queued for the host next. */
  lemma StaleTokenReachesSuccessor(db: Database, own: Id, v: Id, token: string)
    requires Inv(db) && own in db.installs && Enabled(db, Queue(db.installs[own].host, v, token))
    ensures var e := Apply(db, Queue(db.installs[own].host, v, token));
      && own in e.installs && e.installs[own] == db.installs[own]
      && e.lastInstall != own && IsActiveOf(e.installs, e.lastInstall, e.installs[own].host)
      && !Active(e.installs[own])
  {
    hide ProfilesInv, PinsOk, MacsOk, InstallsOk, TokensOk, StampsOk, StatusOk;
  }

  /** The one change serving a script can make: an installation of this very machine starts. */
  predicate StartsFor(db: Database, i: Id, mac: string, now: int, e: Database) {
    Step(db, Start(i, now), e) && db.hosts[db.installs[i].host].mac == mac
  }

  lemma FreshHostIsIdle(db: Database)
    requires Inv(db)
    ensures db.lastHost + 1 !in db.hosts && !HasActive(db.installs, db.lastHost + 1)
  {}

  class Handler {
    const store: Store.Store
    const registry: Registry
    const render: Template

    ghost predicate Valid()
      reads store
    {
      Inv(store.Snapshot()) && forall n :: n in registry ==> registry[n].name == n && NameOk(n)
    }

    constructor (store: Store.Store, registry: Registry, render: Template)
      ensures this.store == store && this.registry == registry && this.render == render
    {
      this.store, this.registry, this.render := store, registry, render;
    }

    /** No context and no reason: nothing is queued. No context but a reason: queued and not bootable. */
    method LoadInstallContext(host: Id) returns (ic: Option<Context>, reason: string)
      requires Valid() && host in store.hosts
      ensures ic.Some? ==> Resolves(store.Snapshot(), registry, ic.value) && ic.value.host == host && reason == ""
      ensures ic == None && reason == "" <==> !HasActive(store.installs, host)
      ensures ic.Some? <==> HasBootable(store.Snapshot(), registry, host)
    {
      hide ProfilesInv, InstallsInv, PinsOk, MacsOk, IdsOk;
      var active := store.ActiveInstallationForHost(host);
      if active == None {
        return None, "";
      }
      var inst := active.value;
      ActiveIsUnique(store.Snapshot(), inst, host);
      NothingDangles(store.Snapshot(), inst);
      var v := store.installs[inst].version;
      if v !in store.versions {
        return None, "profile version missing";
      }
      var p := store.versions[v].profile;
      if p !in store.profiles {
        return None, "profile missing";
      }
      if store.profiles[p].provider !in registry {
        return None, "provider " + store.profiles[p].provider + " is not installed";
      }
      if store.profiles[p].iso == None {
        return None, "profile has no ISO assigned";
      }
      if store.profiles[p].iso.value !in store.isos {
        return None, "assigned ISO is missing";
      }
      return Some(Context(host, inst, v, p, store.profiles[p].iso.value)), "";
    }

    /** Waiting becomes installing, and the host with it, when the script is served. */
    method MarkInstalling(ic: Context, now: int)
      requires Valid() && Resolves(store.Snapshot(), registry, ic)
      modifies store
      ensures Valid()
      ensures if old(store.installs)[ic.install].status == Waiting
        then Step(old(store.Snapshot()), Start(ic.install, now), store.Snapshot())
          && store.installs == old(store.installs)[ic.install :=
               old(store.installs)[ic.install].(status := Installing, startedAt := Some(now))]
          && store.hosts == old(store.hosts)[ic.host := old(store.hosts)[ic.host].(status := Busy)]
        else store.Snapshot() == old(store.Snapshot())
    {
      hide ProfilesInv, InstallsInv, PinsOk, MacsOk, IdsOk;
      ghost var before := store.Snapshot();
      if store.installs[ic.install].status != Waiting {
        return;
      }
      var row := store.hosts[ic.host].(status := Busy);
      HostCanBeWritten(before, ic.host);
      store.MarkInstallationStarted(ic.install, now);
      var _ := store.UpdateHost(ic.host, row);
      StepKeepsInv(before, Start(ic.install, now), store.Snapshot());
    }

    /**
     The script for a host. A script that boots is served exactly when the
     host's installation resolves, its provider supports network boot and the
     command line renders; then, and only then, the installation is installing.
     */
    method ScriptFor(baseURL: string, host: Id, now: int) returns (script: string, ghost ic: Option<Context>)
      requires Valid() && host in store.hosts
      modifies store
      ensures Valid()
      ensures ic.Some? ==> Resolves(old(store.Snapshot()), registry, ic.value) && ic.value.host == host
      ensures ic.Some? <==> HasBootable(old(store.Snapshot()), registry, host)
      ensures ic == None ==> store.Snapshot() == old(store.Snapshot())
      // A machine with nothing queued is never sent into an installer.
      ensures !HasActive(old(store.installs), host) && '\n' !in old(store.hosts)[host].mac ==> !Boots(script)
      ensures ic.Some? ==> (Boots(script) <==> CanBoot(old(store.Snapshot()), baseURL, ic.value))
      ensures ic.Some? && Boots(script) && old(store.installs)[ic.value.install].status == Waiting ==>
        Step(old(store.Snapshot()), Start(ic.value.install, now), store.Snapshot())
      ensures ic.Some? && !(Boots(script) && old(store.installs)[ic.value.install].status == Waiting) ==>
        store.Snapshot() == old(store.Snapshot())
      ensures ic.Some? && Boots(script) ==> IsInstalling(store.installs, ic.value.install)
    {
      hide ProfilesInv, InstallsInv, PinsOk, MacsOk, IdsOk;
      var context, reason := LoadInstallContext(host);
      ic := context;
      if context.Some? {
        var c := context.value;
        var manifest := registry[store.profiles[c.profile].provider];
        var config := store.versions[c.version].config;
        var params := ParamsFor(store.Snapshot(), baseURL, c);
        script := InstallScript(manifest, cmdline => render(cmdline, config, params), store.profiles[c.profile].name,
                                store.hosts[host].mac, baseURL, c.iso);
        var boots := HasBootLine(script);
        if boots {
          MarkInstalling(c, now);
        }
        return;
      }
      if reason != "" {
        script := MessageScript("installation for " + store.hosts[host].mac + " is not bootable: " + reason);
        return;
      }
      if '\n' !in store.hosts[host].mac { NothingQueuedDoesNotBoot(store.hosts[host].mac); }
      if store.hosts[host].status == Discovered {
        script := "#!ipxe\necho HELBOOT: host " + store.hosts[host].mac + DISCOVERED;
      } else {
        script := "#!ipxe\necho HELBOOT: host " + store.hosts[host].mac + LOCAL_DISK;
      }
    }

    /** The template parameters: the token of the installation, its ISO and its host. */
    function ParamsFor(db: Database, baseURL: string, ic: Context): Params
      requires Resolves(db, registry, ic)
    {
      var h := db.hosts[ic.host];
      AnswerParams(baseURL, db.installs[ic.install].token, ic.iso, h.hostname, h.mac)
    }

    /** The provider supports network boot and its command line renders. */
    ghost predicate CanBoot(db: Database, baseURL: string, ic: Context)
      requires Resolves(db, registry, ic)
    {
      var m, h := registry[db.profiles[ic.profile].provider], db.hosts[ic.host];
      var cfg := if m.pxe.Some? then m.pxe else m.httpBoot;
      var params := AnswerParams(baseURL, db.installs[ic.install].token, ic.iso, h.hostname, h.mac);
      cfg.Some? && render(cfg.value.cmdline, db.versions[ic.version].config, params).Some?
    }

    /** Records a machine that was not known. */
    method Discover(mac: string) returns (id: Id)
      requires Valid() && !MacTaken(store.hosts, mac, 0)
      modifies store
      ensures Valid()
      ensures Step(old(store.Snapshot()), NewHost(mac, "", None, 0, Discovered), store.Snapshot())
      ensures id == store.lastHost && id in store.hosts && !HasActive(store.installs, id)
      ensures store.hosts == old(store.hosts)[id := Host(mac, "", None, 0, Discovered)]
    {
      hide ProfilesInv, InstallsInv, PinsOk, MacsOk, IdsOk;
      ghost var before := store.Snapshot();
      FreshHostIsIdle(before);
      // The MAC was free a moment ago in the same step, so the insert succeeds.
      var r := store.CreateHost(Host(mac, "", None, 0, Discovered));
      id := r.value;
      StepKeepsInv(before, NewHost(mac, "", None, 0, Discovered), store.Snapshot());
    }

    /**
     A machine asks for its script; None is a MAC that does not normalize.
     Unknown machines are recorded first.
     */
    method HandleScript(baseURL: string, mac: Option<string>, now: int) returns (script: string)
      requires Valid()
      modifies store
      ensures Valid()
      ensures mac == None ==> script == RETRY_SCRIPT && store.Snapshot() == old(store.Snapshot())
      ensures mac.Some? ==> MacTaken(store.hosts, mac.value, 0)
      ensures mac.Some? && !MacTaken(old(store.hosts), mac.value, 0) ==>
        Step(old(store.Snapshot()), NewHost(mac.value, "", None, 0, Discovered), store.Snapshot())
      ensures mac.Some? && MacTaken(old(store.hosts), mac.value, 0) ==>
        store.Snapshot() == old(store.Snapshot())
        || (Boots(script) && exists i :: StartsFor(old(store.Snapshot()), i, mac.value, now, store.Snapshot()))
    {
      hide ProfilesInv, InstallsInv, PinsOk, MacsOk, IdsOk;
      if mac == None {
        return RETRY_SCRIPT;
      }
      var h: Id;
      ghost var before := store.Snapshot();
      ghost var ic: Option<Context>;
      if MacTaken(store.hosts, mac.value, 0) {
        h :| h in store.hosts && h != 0 && store.hosts[h].mac == mac.value;
        script, ic := ScriptFor(baseURL, h, now);
        assert store.Snapshot() != before ==> StartsFor(before, ic.value.install, mac.value, now, store.Snapshot());
      } else {
        h := Discover(mac.value);
        script, ic := ScriptFor(baseURL, h, now);
      }
      assert store.hosts[h].mac == mac.value;
    }

    /** The context a token gives access to; None is the 404. */
    method ContextByToken(token: string) returns (ic: Option<Context>, ghost own: Id)
      requires Valid()
      ensures ic.Some? ==>
        Resolves(store.Snapshot(), registry, ic.value) && IsScoped(store.Snapshot(), own, token, ic.value)
      ensures ic.Some? <==> token != "" && exists i :: IsServed(store.Snapshot(), registry, i, token)
    {
      hide ProfilesInv, InstallsInv, PinsOk, MacsOk, IdsOk;
      var inst := store.InstallationByToken(token);
      own := 0;
      if inst == None {
        return None, own;
      }
      own := inst.value;
      NothingDangles(store.Snapshot(), own);
      var host := store.installs[inst.value].host;
      if host !in store.hosts {
        return None, own;
      }
      var reason;
      ic, reason := LoadInstallContext(host);
      forall i | i in store.installs && store.installs[i].token == token ensures i == own {
        TokenOwner(store.Snapshot(), i, own);
      }
      if ic.Some? {
        TokenFindsOwnIff(store.Snapshot(), own, ic.value.install);
        assert IsServed(store.Snapshot(), registry, own, token);
      }
    }

    /** The line added to the installation log; `stamp` is the time as text. */
    function ReportLine(stamp: string, status: string): string {
      "[" + stamp + "] installer reported " + status + "\n"
    }

    lemma ReportLines(stamp: string)
      ensures ReportLine(stamp, "success") == "[" + stamp + "] installer reported success\n"
      ensures ReportLine(stamp, "error") == "[" + stamp + "] installer reported error\n"
    {
      var head := "[" + stamp;
      assert "] installer reported " + "success" + "\n" == "] installer reported success\n";
      assert "] installer reported " + "error" + "\n" == "] installer reported error\n";
      assert ReportLine(stamp, "success") == head + ("] installer reported " + "success" + "\n");
      assert ReportLine(stamp, "error") == head + ("] installer reported " + "error" + "\n");
    }

    /** The installer's final word: `success` or `error`. */
    method HandleReport(token: string, status: string, now: int, stamp: string)
      returns (code: int, ghost ic: Option<Context>)
      requires Valid()
      modifies store
      ensures Valid()
      ensures code == 204 || code == 400 || code == 404
      ensures code == 404 <==> ic == None
      ensures code == 400 <==> ic.Some? && status != "success" && status != "error"
      ensures ic.Some? ==> Resolves(old(store.Snapshot()), registry, ic.value)
      ensures ic.Some? ==> exists own :: IsScoped(old(store.Snapshot()), own, token, ic.value)
      ensures code == 204 ==>
        ic.Some? && Step(old(store.Snapshot()),
          Finish(ic.value.install, status == "success", now, ReportLine(stamp, status)), store.Snapshot())
      // The reported outcome, word for word: the installation's row and its host's, and nothing else.
      ensures code == 204 && status == "success" ==>
        && store.installs == old(store.installs)[ic.value.install := old(store.installs)[ic.value.install].(
             status := Success, finishedAt := Some(now),
             log := old(store.installs)[ic.value.install].log + ("[" + stamp + "] installer reported success\n"))]
        && store.hosts == old(store.hosts)[ic.value.host := old(store.hosts)[ic.value.host].(status := Ready)]
      ensures code == 204 && status != "success" ==>
        && status == "error"
        && store.installs == old(store.installs)[ic.value.install := old(store.installs)[ic.value.install].(
             status := Failed, finishedAt := Some(now),
             log := old(store.installs)[ic.value.install].log + ("[" + stamp + "] installer reported error\n"))]
        && store.hosts == old(store.hosts)[ic.value.host := old(store.hosts)[ic.value.host].(status := Broken)]
      ensures code != 204 ==> store.Snapshot() == old(store.Snapshot())
    {
      hide ProfilesInv, InstallsInv, PinsOk, MacsOk, IdsOk;
      var context: Option<Context>;
      ghost var own: Id;
      context, own := ContextByToken(token);
      ic := context;
      if context == None {
        return 404, ic;
      }
      ReportLines(stamp);
      if status == "success" {
        FinishInstallation(context.value, Success, now, ReportLine(stamp, status));
      } else if status == "error" {
        FinishInstallation(context.value, Failed, now, ReportLine(stamp, status));
      } else {
        return 400, ic;
      }
      return 204, ic;
    }

    method FinishInstallation(ic: Context, final: Status, now: int, line: string)
      requires Valid() && Resolves(store.Snapshot(), registry, ic) && (final == Success || final == Failed)
      modifies store
      ensures Valid()
      ensures Step(old(store.Snapshot()), Finish(ic.install, final == Success, now, line), store.Snapshot())
      ensures store.installs == old(store.installs)[ic.install := old(store.installs)[ic.install].(
        status := final, finishedAt := Some(now), log := old(store.installs)[ic.install].log + line)]
      ensures store.hosts == old(store.hosts)[ic.host :=
        old(store.hosts)[ic.host].(status := if final == Success then Ready else Broken)]
    {
      hide ProfilesInv, InstallsInv, PinsOk, MacsOk, IdsOk;
      ghost var before := store.Snapshot();
      HostCanBeWritten(before, ic.host);
      var row := store.hosts[ic.host];
      var _ := store.MarkInstallationFinished(ic.install, final, line, now);
      if final == Success {
        row := row.(status := Ready);
      } else {
        row := row.(status := Broken);
      }
      var _ := store.UpdateHost(ic.host, row);
      StepKeepsInv(before, Finish(ic.install, final == Success, now, line), store.Snapshot());
    }
  }

  lemma ActiveIsUnique(db: Database, i: Id, host: Id)
    requires Inv(db) && IsActiveOf(db.installs, i, host)
    ensures forall j :: j in db.installs && IsActiveOf(db.installs, j, host) ==> j == i
  {}

  /** References of an installation and its profile lead somewhere. */
  lemma NothingDangles(db: Database, i: Id)
    requires Inv(db) && i in db.installs
    ensures db.installs[i].host in db.hosts && db.installs[i].version in db.versions
    ensures var p := db.versions[db.installs[i].version].profile;
      p in db.profiles && ISOExists(db.isos, db.profiles[p].iso)
  {}

  /** Rewriting a host's own row with another status meets every constraint. */
  lemma HostCanBeWritten(db: Database, h: Id)
    requires Inv(db) && h in db.hosts
    ensures !MacTaken(db.hosts, db.hosts[h].mac, h)
    ensures db.hosts[h].profile.Some? ==> db.hosts[h].profile.value in db.profiles
  {}
}
