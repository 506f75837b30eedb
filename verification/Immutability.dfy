/**
 Where the immutability of installed versions ends: exactly which actions take a
 reference away, what they open to changes, and what that means over runs.
 */
module Immutability {
  import opened Basics
  import opened Tables
  import opened Lifecycle

  /** Version v is still there with its profile, number and config. */
  predicate Intact(db: Database, e: Database, v: Id)
    requires v in db.versions
  {
    v in e.versions && e.versions[v].(answerOverride := "") == db.versions[v].(answerOverride := "")
  }

  predicate IsHead(db: Database, v: Id) {
    && v in db.versions && db.versions[v].profile in db.profiles
    && db.versions[v].number == db.profiles[db.versions[v].profile].current
  }

  /** All installations that point at v are this one, or belong to this host. */
  predicate TakesAllReferences(db: Database, a: Action, v: Id) {
    match a
    case Cancel(i) => forall j :: j in db.installs && db.installs[j].version == v ==> j == i
    case DropHost(h) => forall j :: j in db.installs && db.installs[j].version == v ==> db.installs[j].host == h
    case _ => false
  }

  // -------------------------------------------------------------- one action

  /** Only cancelling and deleting a host take references away. */
  lemma ReferencesLostIff(db: Database, a: Action, v: Id)
    requires Inv(db) && Enabled(db, a) && Referenced(db.installs, v)
    ensures !Referenced(Apply(db, a).installs, v) <==> TakesAllReferences(db, a, v)
  {
    hide ProfilesInv, InstallsInv, PinsOk, MacsOk, IdsOk;
    var e := Apply(db, a);
    var i :| i in db.installs && db.installs[i].version == v;
    if !a.Cancel? && !a.DropHost? {
      InstallStays(db, a, i);
    } else {
      assert forall j :: j in e.installs ==> j in db.installs && e.installs[j] == db.installs[j];
      assert forall j :: j in db.installs && j !in e.installs ==>
        if a.Cancel? then j == a.install else db.installs[j].host == a.host;
      if !TakesAllReferences(db, a, v) {
        var j :| j in db.installs && db.installs[j].version == v && j in e.installs;
        assert e.installs[j].version == v;
      }
    }
  }

  lemma InstallStays(db: Database, a: Action, i: Id)
    requires Inv(db) && Enabled(db, a) && i in db.installs && !a.Cancel? && !a.DropHost?
    ensures i in Apply(db, a).installs && Apply(db, a).installs[i].version == db.installs[i].version
  {
    hide ProfilesInv, PinsOk, MacsOk, TokensOk, OneActive, StampsOk, StatusOk, InstallsOk;
    if !TouchesInstalls(a) {
      OthersKeepInstalls(db, a);
    } else {
      assert IdsOk(db.installs.Keys, db.lastInstall);
    }
  }

  /** A referenced current version is open to in-place edits after an action exactly when that took all references. */
  lemma HeadReopensIff(db: Database, a: Action, p: Id, head: Id, config: string)
    requires Inv(db) && Enabled(db, a) && p in db.profiles && IsVersion(db.versions, head, p, db.profiles[p].current)
    requires Referenced(db.installs, head)
    ensures p in Apply(db, a).profiles
    ensures ChangeOk(Apply(db, a), p, EditHead(head, config)) <==> TakesAllReferences(db, a, head)
  {
    hide InstallsInv, ProfilesInv, PinsOk, MacsOk, IdsOk;
    ReferencesLostIff(db, a, head);
    ReferencedIsFixed(db, a, head);
    assert ProfileReferenced(db.installs, db.versions, p);
  }

  /** Whether or not anything pointed there: cancelling leaves the head open exactly without another reference. */
  lemma CancelReopensIff(db: Database, i: Id, p: Id, head: Id, config: string)
    requires Enabled(db, Cancel(i)) && p in db.profiles
    requires IsVersion(db.versions, head, p, db.profiles[p].current)
    ensures ChangeOk(Apply(db, Cancel(i)), p, EditHead(head, config)) <==>
      forall j :: j in db.installs && db.installs[j].version == head ==> j == i
  {
    var ins := db.installs - {i};
    if j :| j in db.installs && db.installs[j].version == head && j != i {
      assert j in ins && Referenced(ins, head);
    }
  }

  /** Deleting a host leaves the head open exactly when every installation pointing there is the host's. */
  lemma DropHostReopensIff(db: Database, h: Id, p: Id, head: Id, config: string)
    requires Enabled(db, DropHost(h)) && p in db.profiles
    requires IsVersion(db.versions, head, p, db.profiles[p].current)
    ensures ChangeOk(Apply(db, DropHost(h)), p, EditHead(head, config)) <==>
      forall j :: j in db.installs && db.installs[j].version == head ==> db.installs[j].host == h
  {
    var ins := Apply(db, DropHost(h)).installs;
    if j :| j in db.installs && db.installs[j].version == head && db.installs[j].host != h {
      assert j in ins && ins[j].version == head;
    }
  }

  /** The action is possible and leaves v with another config, or without its row. */
  ghost predicate Alters(db: Database, a: Action, v: Id)
    requires v in db.versions
  {
    Enabled(db, a) && !Intact(db, Apply(db, a), v)
  }

  /**
   What immutability amounts to in a single state: some action changes or removes
   a version exactly when it is current and nothing points at it, or nothing
   points at any version of its profile.
   */
  lemma CanBeAlteredIff(db: Database, v: Id)
    requires Inv(db) && v in db.versions
    ensures (exists a :: Alters(db, a, v)) <==>
      (IsHead(db, v) && !Referenced(db.installs, v))
      || !ProfileReferenced(db.installs, db.versions, db.versions[v].profile)
  {
    hide InstallsInv, PinsOk, MacsOk, IdsOk;
    var p := db.versions[v].profile;
    if !ProfileReferenced(db.installs, db.versions, p) {
      assert Alters(db, DropProfile(p), v);
    } else if IsHead(db, v) && !Referenced(db.installs, v) {
      var a := EditProfile(p, db.profiles[p].name, db.profiles[p].iso, EditHead(v, db.versions[v].config + "x"));
      assert Enabled(db, a);
      assert |Apply(db, a).versions[v].config| > |db.versions[v].config|;
      assert Alters(db, a, v);
    } else {
      forall a ensures !Alters(db, a, v) {
        if Enabled(db, a) { OthersAreFixed(db, a, v); }
      }
    }
  }

  /** An old version of a referenced profile is as fixed as a referenced one. */
  lemma OthersAreFixed(db: Database, a: Action, v: Id)
    requires Inv(db) && Enabled(db, a) && v in db.versions
    requires ProfileReferenced(db.installs, db.versions, db.versions[v].profile)
    requires !(IsHead(db, v) && !Referenced(db.installs, v))
    ensures Intact(db, Apply(db, a), v)
  {
    hide InstallsInv, PinsOk, MacsOk, VersionsOk, NamesOk, ISOsOk, PinOk;
    if Referenced(db.installs, v) {
      ReferencedIsFixed(db, a, v);
    } else if !TouchesVersions(a) {
      OthersKeepVersions(db, a);
    } else {
      assert IdsOk(db.versions.Keys, db.lastVersion) && v <= db.lastVersion;
    }
  }

  // ------------------------------------------------------------------- runs

  /** The run cancels installation i or deletes its host. */
  predicate Loses(run: seq<Action>, i: Id, host: Id) {
    exists k :: 0 <= k < |run| && (run[k] == Cancel(i) || run[k] == DropHost(host))
  }

  lemma LosesFirst(run: seq<Action>, i: Id, host: Id)
    requires run != []
    ensures Loses(run, i, host) <==> run[0] == Cancel(i) || run[0] == DropHost(host) || Loses(run[1..], i, host)
  {
    if k :| 0 <= k < |run[1..]| && (run[1..][k] == Cancel(i) || run[1..][k] == DropHost(host)) {
      assert run[k + 1] == run[1..][k];
    }
    if k :| 1 <= k < |run| && (run[k] == Cancel(i) || run[k] == DropHost(host)) {
      assert run[1..][k - 1] == run[k];
    }
  }

  lemma GoneAtOnceIff(db: Database, a: Action, i: Id)
    requires Inv(db) && Enabled(db, a) && i in db.installs
    ensures i !in Apply(db, a).installs <==> a == Cancel(i) || a == DropHost(db.installs[i].host)
    ensures i in Apply(db, a).installs ==>
      Apply(db, a).installs[i].host == db.installs[i].host && Apply(db, a).installs[i].version == db.installs[i].version
  {
    hide ProfilesInv, InstallsInv, PinsOk, MacsOk, IdsOk;
    if !a.Cancel? && !a.DropHost? { InstallStays(db, a, i); }
    if i in Apply(db, a).installs { ActionAdvances(db, a, i); }
  }

  /** An installation disappears in a run exactly by being cancelled or with its host. */
  lemma {:induction false} GoneIff(db: Database, run: seq<Action>, i: Id)
    requires Inv(db) && Possible(db, run) && i in db.installs
    ensures i !in Run(db, run).installs <==> Loses(run, i, db.installs[i].host)
    decreases |run|
  {
    if run != [] {
      var next := Apply(db, run[0]);
      ActionKeepsInv(db, run[0]);
      GoneAtOnceIff(db, run[0], i);
      LosesFirst(run, i, db.installs[i].host);
      if i in next.installs {
        GoneIff(next, run[1..], i);
      } else {
        IdBound(db, run[0], i);
        GoneForGood(next, run[1..], i);
      }
    }
  }

  /** A version that changed or vanished had lost every installation that pointed at it. */
  lemma AlteredOnlyAfterLoss(db: Database, run: seq<Action>, v: Id, i: Id)
    requires Inv(db) && Possible(db, run) && v in db.versions && !Intact(db, Run(db, run), v)
    requires i in db.installs && db.installs[i].version == v
    ensures Loses(run, i, db.installs[i].host)
  {
    GoneIff(db, run, i);
    if i in Run(db, run).installs { HistoryIsImmutable(db, run, i); }
  }

  predicate NeverQueued(run: seq<Action>, v: Id) {
    forall k :: 0 <= k < |run| && run[k].Queue? ==> run[k].version != v
  }

  /** Without queueing, references to v can only become fewer. */
  lemma {:induction false} NoNewReference(db: Database, run: seq<Action>, v: Id, i: Id)
    requires Inv(db) && Possible(db, run) && NeverQueued(run, v)
    requires i in Run(db, run).installs && Run(db, run).installs[i].version == v
    ensures i in db.installs && db.installs[i].version == v
    decreases |run|
  {
    if run != [] {
      ActionKeepsInv(db, run[0]);
      assert NeverQueued(run[1..], v);
      NoNewReference(Apply(db, run[0]), run[1..], v, i);
      FirstAddsNone(db, run[0], v, i);
    }
  }

  lemma FirstAddsNone(db: Database, a: Action, v: Id, i: Id)
    requires Inv(db) && Enabled(db, a) && (a.Queue? ==> a.version != v)
    requires i in Apply(db, a).installs && Apply(db, a).installs[i].version == v
    ensures i in db.installs && db.installs[i].version == v
  {
    hide ProfilesInv, InstallsInv, PinsOk, MacsOk, IdsOk;
    if !TouchesInstalls(a) { OthersKeepInstalls(db, a); }
  }

  /**
   The rule over runs. After a run that does not queue v again and leaves it
   current, v is open to in-place edits exactly when the run cancelled every
   installation that pointed at v, or deleted its host.
   */
  lemma OpenAfterRunIff(db: Database, run: seq<Action>, p: Id, v: Id, config: string)
    requires Inv(db) && Possible(db, run) && NeverQueued(run, v)
    requires p in Run(db, run).profiles
    requires IsVersion(Run(db, run).versions, v, p, Run(db, run).profiles[p].current)
    ensures ChangeOk(Run(db, run), p, EditHead(v, config)) <==>
      forall i :: i in db.installs && db.installs[i].version == v ==> Loses(run, i, db.installs[i].host)
  {
    hide ProfilesInv, InstallsInv, PinsOk, MacsOk, IdsOk;
    var e := Run(db, run);
    if i :| i in e.installs && e.installs[i].version == v {
      NoNewReference(db, run, v, i);
      GoneIff(db, run, i);
    } else {
      forall i | i in db.installs && db.installs[i].version == v ensures Loses(run, i, db.installs[i].host) {
        GoneIff(db, run, i);
        if i in e.installs { HistoryIsImmutable(db, run, i); }
      }
    }
  }

  // ------------------------------------------------------------------- pins

  /** Neither the host nor its profile is deleted, and the host is not edited. */
  predicate KeepsAssignment(run: seq<Action>, h: Id, p: Id) {
    forall k :: 0 <= k < |run| ==>
      run[k] != DropHost(h) && run[k] != DropProfile(p) && !(run[k].EditHost? && run[k].host == h)
  }

  lemma HostStays(db: Database, a: Action, h: Id, p: Id)
    requires Inv(db) && Enabled(db, a) && KeepsAssignment([a], h, p) && h in db.hosts && db.hosts[h].profile == Some(p)
    ensures var e := Apply(db, a); h in e.hosts && e.hosts[h].(status := Ready) == db.hosts[h].(status := Ready)
  {
    hide ProfilesInv, InstallsInv, PinsOk, MacsOk;
    assert [a][0] == a;
  }

  /** From db to e, version v keeps its place; if there was a newer one, its config as well. */
  ghost predicate Stays(db: Database, e: Database, v: Id)
    requires v in db.versions
  {
    var p := db.versions[v].profile;
    && IsVersion(e.versions, v, p, db.versions[v].number)
    && p in db.profiles && p in e.profiles && db.profiles[p].current <= e.profiles[p].current
    && (db.versions[v].number < db.profiles[p].current ==> Intact(db, e, v))
  }

  lemma VersionStays(db: Database, a: Action, v: Id)
    requires Inv(db) && Enabled(db, a) && v in db.versions && a != DropProfile(db.versions[v].profile)
    ensures Stays(db, Apply(db, a), v)
  {
    VersionBelongs(db, v);
    match a
    case EditProfile(p, name, iso, c) => EditKeepsVersion(db, p, name, iso, c, v);
    case NewProfile(name, provider, iso, config) =>
      assert IdsOk(db.profiles.Keys, db.lastProfile);
      NewKeepsVersion(db, Profile(name, provider, iso, 1), config, v);
    case _ => OtherKeepsVersion(db, a, v);
  }

  lemma RenameKeepsVersion(db: Database, p: Id, row: Profile, v: Id)
    requires p in db.profiles && row.current >= db.profiles[p].current
    requires v in db.versions && db.versions[v].profile in db.profiles
    ensures Stays(db, db.(profiles := db.profiles[p := row]), v)
  {}

  /** In place only the current version is written. */
  lemma HeadEditKeepsVersion(db: Database, p: Id, head: Id, config: string, v: Id)
    requires p in db.profiles && IsVersion(db.versions, head, p, db.profiles[p].current)
    requires v in db.versions && db.versions[v].profile in db.profiles
    ensures Stays(db, Changed(db, p, EditHead(head, config)), v)
  {}

  lemma SaveKeepsVersion(db: Database, p: Id, number: nat, config: string, v: Id)
    requires p in db.profiles && number > db.profiles[p].current && db.lastVersion + 1 != v
    requires v in db.versions && db.versions[v].profile in db.profiles
    ensures Stays(db, Changed(db, p, SaveAsNew(number, config)), v)
  {}

  lemma EditKeepsVersion(db: Database, p: Id, name: string, iso: Option<Id>, c: Change, v: Id)
    requires Inv(db) && p in db.profiles && v in db.versions && ChangeOk(db, p, c)
    ensures Stays(db, Changed(Renamed(db, p, name, iso), p, c), v)
  {
    var r := Renamed(db, p, name, iso);
    VersionBelongs(db, v);
    RenameKeepsVersion(db, p, r.profiles[p], v);
    match c
    case KeepConfig =>
    case EditHead(head, config) => HeadEditKeepsVersion(r, p, head, config, v);
    case SaveAsNew(number, config) =>
      NextNumber(db.profiles, db.versions, p, number);
      SaveKeepsVersion(r, p, number, config, v);
  }

  lemma NewKeepsVersion(db: Database, row: Profile, config: string, v: Id)
    requires db.lastProfile + 1 !in db.profiles && v in db.versions && v <= db.lastVersion
    requires db.versions[v].profile in db.profiles
    ensures Stays(db, WithProfile(db, row, config), v)
  {}

  lemma OtherKeepsVersion(db: Database, a: Action, v: Id)
    requires Enabled(db, a) && !a.EditProfile? && !a.NewProfile?
    requires v in db.versions && db.versions[v].profile in db.profiles && a != DropProfile(db.versions[v].profile)
    ensures Stays(db, Apply(db, a), v)
  {
    if !TouchesVersions(a) { OthersKeepVersions(db, a); }
  }

  lemma VersionBelongs(db: Database, v: Id)
    requires Inv(db) && v in db.versions
    ensures db.versions[v].profile in db.profiles && v <= db.lastVersion
  {}

  /**
   Hosts keep installing what they pin. Whatever happens to the profile short of
   its deletion, a host that is not edited goes on pinning the same version row;
   and if that was not the current version, its config stays as it was, whether
   or not an installation refers to it.
   */
  lemma {:induction false} PinIsStable(db: Database, run: seq<Action>, h: Id, p: Id, v: Id)
    requires Inv(db) && Possible(db, run) && KeepsAssignment(run, h, p)
    requires h in db.hosts && db.hosts[h].profile == Some(p) && IsVersion(db.versions, v, p, db.hosts[h].pin)
    ensures var e := Run(db, run);
      && h in e.hosts && e.hosts[h].profile == Some(p) && e.hosts[h].pin == db.hosts[h].pin
      && IsVersion(e.versions, v, p, db.hosts[h].pin)
      && (p in db.profiles && db.hosts[h].pin < db.profiles[p].current ==> Intact(db, e, v))
    decreases |run|
  {
    hide Inv, Enabled, Apply;
    if run != [] {
      var next := Apply(db, run[0]);
      assert [run[0]][0] == run[0];
      ActionKeepsInv(db, run[0]);
      HostStays(db, run[0], h, p);
      VersionStays(db, run[0], v);
      PinIsStable(next, run[1..], h, p, v);
    }
  }
}
