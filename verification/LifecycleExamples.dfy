/** Runs from the empty database in which the config of a version changes after an installation referred to it. */
module LifecycleExamples {
  import opened Basics
  import opened Tables
  import opened Lifecycle

  const QUEUEING: seq<Action> :=
    [NewProfile("p", "debian", None, "old"), NewHost("m", "", None, 0, Ready), Queue(1, 1, "t")]

  const REWRITE: Action := EditProfile(1, "p", None, EditHead(1, "new"))

  /** The database around a single profile and its version 1. */
  function Around(config: string, hosts: Hosts, installs: Installs): Database {
    Database({}, map[1 := Profile("p", "debian", None, 1)], map[1 := Version(1, 1, config, "")], hosts, installs,
             0, 1, 1, 1, 1)
  }

  function AHost(status: HostStatus): Hosts { map[1 := Host("m", "", None, 0, status)] }

  const QUEUED: Database := Around("old", AHost(Ready), map[1 := Queued(1, 1, "t")])

  const DONE: Installation := Finished(Started(Queued(1, 1, "t"), 0), true, 1, "ok")

  lemma {:induction false} RunJoins(db: Database, first: seq<Action>, second: seq<Action>)
    requires Possible(db, first) && Possible(Run(db, first), second)
    ensures Possible(db, first + second) && Run(db, first + second) == Run(Run(db, first), second)
    decreases |first|
  {
    if first == [] {
      assert first + second == second;
    } else {
      RunJoins(Apply(db, first[0]), first[1..], second);
      assert (first + second)[1..] == first[1..] + second;
    }
  }

  lemma RunOfOne(db: Database, a: Action)
    requires Enabled(db, a)
    ensures Possible(db, [a]) && Run(db, [a]) == Apply(db, a)
  {
    assert [a][1..] == [] && Possible(Apply(db, a), []);
  }

  lemma RunOfTwo(db: Database, a: Action, b: Action)
    requires Enabled(db, a) && Enabled(Apply(db, a), b)
    ensures Possible(db, [a, b]) && Run(db, [a, b]) == Apply(Apply(db, a), b)
  {
    RunOfOne(db, a);
    RunOfOne(Apply(db, a), b);
    RunJoins(db, [a], [b]);
    assert [a] + [b] == [a, b];
  }

  /** A profile, a host and an installation that refers to the profile's version. */
  lemma QueueingRuns()
    ensures Possible(EMPTY, QUEUEING) && Run(EMPTY, QUEUEING) == QUEUED && Referenced(QUEUED.installs, 1)
  {
    var d1 := Apply(EMPTY, QUEUEING[0]);
    var d2 := Apply(d1, QUEUEING[1]);
    assert d2.hosts == AHost(Ready) && d2.versions == map[1 := Version(1, 1, "old", "")];
    assert Enabled(d2, QUEUEING[2]);
    RunOfTwo(EMPTY, QUEUEING[0], QUEUEING[1]);
    RunOfOne(d2, QUEUEING[2]);
    RunJoins(EMPTY, QUEUEING[..2], QUEUEING[2..]);
    assert QUEUEING[..2] == [QUEUEING[0], QUEUEING[1]] && QUEUEING[..2] + QUEUEING[2..] == QUEUEING;
    assert QUEUED.installs[1].version == 1;
  }

  /** Without references the current version is rewritten in place. */
  lemma Rewrites(hosts: Hosts)
    ensures var db := Around("old", hosts, map[]); Step(db, REWRITE, Around("new", hosts, map[]))
  {
    var db := Around("old", hosts, map[]);
    assert Enabled(db, REWRITE);
    assert Apply(db, REWRITE).profiles == db.profiles;
  }

  /** Cancelled, the only installation no longer protects the config it was queued with. */
  lemma RewrittenAfterCancel()
    ensures var run := QUEUEING + [Cancel(1), REWRITE];
      && Possible(EMPTY, run) && QUEUED.versions[1].config == "old"
      && 1 in Run(EMPTY, run).versions && Run(EMPTY, run).versions[1].config == "new"
  {
    QueueingRuns();
    assert Apply(QUEUED, Cancel(1)) == Around("old", AHost(Ready), map[]);
    Rewrites(AHost(Ready));
    RunOfTwo(QUEUED, Cancel(1), REWRITE);
    RunJoins(EMPTY, QUEUEING, [Cancel(1), REWRITE]);
  }

  /** An installation that has succeeded goes with its host, and the config it installed is rewritten. */
  lemma RewrittenAfterDropHost()
    ensures var report := [Start(1, 0), Finish(1, true, 1, "ok")];
      var run := QUEUEING + report + [DropHost(1), REWRITE];
      && Possible(EMPTY, QUEUEING + report)
      && 1 in Run(EMPTY, QUEUEING + report).installs && Run(EMPTY, QUEUEING + report).installs[1] == DONE
      && Possible(EMPTY, run) && 1 in Run(EMPTY, run).versions && Run(EMPTY, run).versions[1].config == "new"
  {
    QueueingRuns();
    var report, undo := [Start(1, 0), Finish(1, true, 1, "ok")], [DropHost(1), REWRITE];
    var done := Around("old", AHost(Ready), map[1 := DONE]);
    ReportRuns();
    RunJoins(EMPTY, QUEUEING, report);
    assert Apply(done, DropHost(1)) == Around("old", map[], map[]);
    Rewrites(map[]);
    RunOfTwo(done, DropHost(1), REWRITE);
    RunJoins(EMPTY, QUEUEING + report, undo);
  }

  lemma ReportRuns()
    ensures var report := [Start(1, 0), Finish(1, true, 1, "ok")];
      Possible(QUEUED, report) && Run(QUEUED, report) == Around("old", AHost(Ready), map[1 := DONE])
  {
    var started := Apply(QUEUED, Start(1, 0));
    assert started == Around("old", AHost(Busy), map[1 := Started(Queued(1, 1, "t"), 0)]);
    assert Apply(started, Finish(1, true, 1, "ok")) == Around("old", AHost(Ready), map[1 := DONE]);
    RunOfTwo(QUEUED, Start(1, 0), Finish(1, true, 1, "ok"));
  }
}
