/**
 * Concrete states of the stage gate that show how the source behaves at its
 * edges: the cleanup at :260-263 forgetting a waiting flow, after a cleanup,
 * an `exit` or an `enter` with limit 0, and a build that both holds a stage
 * and waits on it.
 */
module Scenarios {
  import opened StageGate
  import opened Capacity

  /** Build 1 was deleted without `exit` (:256); every other build exists. */
  predicate BuildOneDeleted(b: int)
  {
    b != 1
  }

  /**
   * Stage "S" has limit 1; the deleted build 1 holds it and build 2 waits on
   * it. Build 3 holds stage "T" of the same job.
   */
  const Stranded: Table := map["job" := map["S" := Stage({1}, Some(1), Some(Flow(2, 2))), "T" := Stage({3}, None, None)]]

  /**
   * Cleanup (:260-263) prunes build 1, finds "S" empty and removes it, and
   * with it build 2's waiting context: nothing will resume or cancel build 2
   * again. The intended cleanup keeps "S" with build 2 waiting.
   */
  lemma CleanUpDropsWaiter()
    ensures CleanUp(Stranded, "job", BuildOneDeleted) == map["job" := map["T" := Stage({3}, None, None)]]
    ensures CleanUpKeepingWaiters(Stranded, "job", BuildOneDeleted)
         == map["job" := map["S" := Stage({}, Some(1), Some(Flow(2, 2))), "T" := Stage({3}, None, None)]]
  {
    var m := Stranded["job"];
    var s := Stage({}, Some(1), Some(Flow(2, 2)));
    var u := Stage({3}, None, None);
    assert Pruned(m["S"], BuildOneDeleted) == s;
    assert Pruned(m["T"], BuildOneDeleted) == u;
    var written := NonEmptyStages(m, BuildOneDeleted);
    assert written == map["T" := u] && "T" in written;
    assert Stranded["job" := written] == map["job" := map["T" := u]];
    assert RetainedStages(m, BuildOneDeleted) == map["S" := s, "T" := u];
  }

  /** `Stranded` once build 3 has left "T" (:229-237): "S" did not hold it, and "T" has no waiter to admit. */
  const Left: Stages := map["S" := Stage({1}, Some(1), Some(Flow(2, 2))), "T" := Stage({}, None, None)]

  lemma StrandedReleases()
    ensures Released(Stranded["job"], Stranded["job"].Keys, 3) == Left
    ensures Stranded["job" := Left] == map["job" := Left]
  {
    var m := Stranded["job"];
    var r := Released(m, m.Keys, 3);
    assert r.Keys == {"S", "T"};
    assert 3 !in m["S"].holding && r["S"] == m["S"];
    assert 3 in m["T"].holding && m["T"].holding - {3} + {} == {};
    assert r["T"] == Left["T"];
  }

  /** Cleanup after that exit drops both stages and the job; the intended cleanup keeps "S" with build 2 waiting. */
  lemma LeftCleanUp()
    ensures CleanUp(map["job" := Left], "job", BuildOneDeleted) == map[]
    ensures CleanUpKeepingWaiters(map["job" := Left], "job", BuildOneDeleted)
         == map["job" := map["S" := Stage({}, Some(1), Some(Flow(2, 2)))]]
  {
    var s := Stage({}, Some(1), Some(Flow(2, 2)));
    assert Pruned(Left["S"], BuildOneDeleted) == s;
    assert Pruned(Left["T"], BuildOneDeleted) == Left["T"];
    assert NonEmptyStages(Left, BuildOneDeleted) == map[];
    assert RetainedStages(Left, BuildOneDeleted) == map["S" := s] && "S" in RetainedStages(Left, BuildOneDeleted);
    assert map["job" := Left]["job" := map["S" := s]] == map["job" := map["S" := s]];
  }

  /** Signals that resume exactly the waiters of stages holding `build`, when no such stage has a waiter, are none. */
  lemma NoWaiterResumed(m: Stages, build: int, signals: seq<Signal>)
    requires ResumesWaitersOf(m, m.Keys, build, signals)
    requires forall k :: k in m && build in m[k].holding ==> m[k].waiting.None?
    ensures signals == []
  {
    FirstIsIn(signals);
  }

  lemma FirstIsIn<T>(s: seq<T>)
    ensures s != [] ==> s[0] in s
  {
  }

  /**
   * The same defect through `exit` (:238-239): build 3 leaves "T", and the
   * cleanup that follows drops "S" and then the whole job, so build 2 waits
   * on a stage the table no longer has. No signal is sent, yet the table is
   * saved.
   */
  lemma ExitDropsWaiter()
    ensures Exit(Stranded, "job", 3, BuildOneDeleted) == Departure(map[], [], true)
  {
    var m := Stranded["job"];
    assert "T" in m && 3 in m["T"].holding;
    ExitReleases(Stranded, "job", 3, BuildOneDeleted);
    StrandedReleases();
    LeftCleanUp();
    ExitResumesWaiters(Stranded, "job", 3, BuildOneDeleted);
    forall k | k in m && 3 in m[k].holding ensures m[k].waiting.None? {
      assert k == "T";
    }
    NoWaiterResumed(m, 3, Exit(Stranded, "job", 3, BuildOneDeleted).signals);
  }

  /**
   * A limit of 0, which nothing rejects: the flow entering a fresh stage
   * parks, and the cleanup that ends the same `enter` removes the stage and
   * the job, so the flow waits on a stage the table no longer has. The
   * intended cleanup keeps the stage with the flow waiting.
   */
  lemma ZeroLimitStrandsFlow(ready: Ctx -> bool)
    ensures var a := Admit(map[], "job", "S", Flow(1, 1), Some(0), ready);
      && a.outcome == Entered
      && a.table == map["job" := map["S" := Stage({}, Some(0), Some(Flow(1, 1)))]]
      && CleanUpKeepingWaiters(a.table, "job", Alive) == a.table
      && Enter(map[], "job", "S", Flow(1, 1), Some(0), ready, Alive) == Admission(Entered, map[], [])
  {
    var stages := map["S" := Stage({}, Some(0), None)];
    assert Locate(map[], "job", "S", Some(0)) == map["job" := stages];
    assert stages.Keys - {"S"} == {};
    var parked := map["S" := Stage({}, Some(0), Some(Flow(1, 1)))];
    assert Admitted(stages, "S", Flow(1, 1)) == parked;
    assert Pruned(parked["S"], Alive) == parked["S"];
    assert RetainedStages(parked, Alive) == parked;
    assert NonEmptyStages(parked, Alive) == map[];
    assert map["job" := parked] - {"job"} == map[];
  }

  /**
   * The same build can hold a stage and wait on it (:338-340 only warn about
   * it): build 1 holds "S" at its limit and enters "S" again from another
   * flow context; the new context waits, and build 1 stays in `holding`.
   */
  lemma HolderCanWaitAgain(ready: Ctx -> bool)
    ensures var t := map["job" := map["S" := Stage({1}, Some(1), None)]];
      Enter(t, "job", "S", Flow(1, 5), Some(1), ready, Alive).table
        == map["job" := map["S" := Stage({1}, Some(1), Some(Flow(1, 5)))]]
  {
    var t := map["job" := map["S" := Stage({1}, Some(1), None)]];
    var stages := t["job"];
    assert stages["S"].(concurrency := Some(1)) == stages["S"];
    assert stages["S" := stages["S"]] == stages && t["job" := stages] == t;
    assert Locate(t, "job", "S", Some(1)) == t;
    EnterProceeds(t, "job", "S", Flow(1, 5), Some(1), ready, Alive, Flow(1, 5), []);
    assert stages.Keys - {"S"} == {};
    var parked := map["S" := Stage({1}, Some(1), Some(Flow(1, 5)))];
    assert Admitted(stages, "S", Flow(1, 5)) == parked;
    assert Pruned(parked["S"], Alive) == parked["S"];
    assert NonEmptyStages(parked, Alive) == parked;
  }
}
