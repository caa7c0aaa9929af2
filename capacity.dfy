/**
 * The capacity bound of a stage: as long as every `enter` on a stage passes
 * the same limit `n`, the stage never holds more than `n` builds, whatever
 * else happens to the job (:202-204, :210, :230-234). A flow is admitted only
 * below the limit, and every other unblock follows a removal. The source
 * itself warns (:341-343) that a caller lowering the limit breaks this;
 * LoweredLimitParks and LoweredLimitUnblocks show how.
 */
module Capacity {
  import opened StageGate
  import KeyOrder

  /** Stage `name` of `job`, if present, holds at most `n` builds. */
  predicate Bounded(t: Table, job: string, name: string, n: nat)
  {
    job in t && name in t[job] ==> |t[job][name].holding| <= n
  }

  lemma {:induction false} SubsetCard(a: set<int>, b: set<int>)
    requires a <= b
    ensures |a| <= |b|
    decreases |a|
  {
    if a != {} {
      // Only supplies the witness for the choice below; `a != {}` already excludes this.
      if forall x :: x !in a {
        assert false;
      }
      var x :| x in a;
      SubsetCard(a - {x}, b - {x});
    }
  }

  /** Releasing a build from one stage never makes it hold more: one build leaves before the waiter comes in. */
  lemma ReleasedNoGrowth(m: Stages, keys: set<string>, build: int, k: string)
    requires k in m
    ensures |Released(m, keys, build)[k].holding| <= |m[k].holding|
  {
    var h := m[k].holding;
    if k in keys && build in h {
      var w := Builds(m[k].waiting);
      assert |h - {build}| == |h| - 1;
      assert |(h - {build}) + w| <= |h - {build}| + |w|;
    }
  }

  /** Cleanup only removes holders, stages and jobs. */
  lemma CleanUpNoGrowth(t: Table, job: string, buildExists: int -> bool, j: string, k: string)
    requires job in t
    ensures var c := CleanUp(t, job, buildExists);
      j in c && k in c[j] ==> j in t && k in t[j] && c[j][k].holding <= t[j][k].holding && |c[j][k].holding| <= |t[j][k].holding|
  {
    var c: Table := CleanUp(t, job, buildExists);
    if j in c && k in c[j] && j == job {
      SubsetCard(c[j][k].holding, t[j][k].holding);
    }
  }

  /** Before cleanup, an `enter` on the stage itself, with its limit `n`, keeps the bound: the contender is admitted only below `n`. */
  lemma AdmitKeepsOwnBound(t: Table, job: string, name: string, n: nat, r: Flow, ready: Ctx -> bool)
    requires Bounded(t, job, name, n)
    ensures Bounded(Admit(t, job, name, r, Some(n), ready).table, job, name, n)
  {
    var stages := Locate(t, job, name, Some(n))[job];
    match Contend(stages[name].waiting, r, ready)
    case Reentry =>
    case Contender(c, cancels) =>
      var before := stages[name];
      assert |before.holding| <= n;
      if HasCapacity(before.(waiting := Some(c))) {
        assert Admitted(stages, name, c)[name].holding == before.holding + {c.build};
      }
  }

  /** Before cleanup, an `enter` on another stage never grows this one: it only releases a build here and admits the waiter. */
  lemma AdmitKeepsOtherBound(t: Table, job: string, name: string, n: nat,
                             j: string, k: string, r: Flow, conc: Option<int>, ready: Ctx -> bool)
    requires Bounded(t, job, name, n)
    requires j != job || k != name
    ensures Bounded(Admit(t, j, k, r, conc, ready).table, job, name, n)
  {
    var located := Locate(t, j, k, conc);
    var stages := located[j];
    match Contend(stages[k].waiting, r, ready)
    case Reentry =>
    case Contender(c, cancels) =>
      if j == job && name in stages {
        assert stages[name] == t[j][name];
        ReleaseAllIsReleased(stages, stages.Keys - {k}, c.build);
        ReleasedNoGrowth(stages, stages.Keys - {k}, c.build, name);
        assert Admitted(stages, k, c)[name] == Released(stages, stages.Keys - {k}, c.build)[name];
      }
  }

  /** `enter` keeps the bound: the lemma behind every EnterOp of a run. */
  lemma EnterKeepsBound(t: Table, job: string, name: string, n: nat,
                        j: string, k: string, r: Flow, conc: Option<int>, ready: Ctx -> bool, buildExists: int -> bool)
    requires Bounded(t, job, name, n)
    requires j == job && k == name ==> conc == Some(n)
    ensures Bounded(Enter(t, j, k, r, conc, ready, buildExists).table, job, name, n)
  {
    var a := Admit(t, j, k, r, conc, ready);
    if j == job && k == name {
      AdmitKeepsOwnBound(t, job, name, n, r, ready);
    } else {
      AdmitKeepsOtherBound(t, job, name, n, j, k, r, conc, ready);
    }
    if a.outcome == Entered {
      CleanUpNoGrowth(a.table, j, buildExists, job, name);
    }
  }

  /** `exit` keeps the bound. */
  lemma ExitKeepsBound(t: Table, job: string, name: string, n: nat, j: string, build: int, buildExists: int -> bool)
    requires Bounded(t, job, name, n)
    ensures Bounded(Exit(t, j, build, buildExists).table, job, name, n)
  {
    if j in t && HoldsAny(t[j], build) {
      ReleaseAllIsReleased(t[j], t[j].Keys, build);
      var released := t[j := Released(t[j], t[j].Keys, build)];
      if job == j && name in t[j] {
        ReleasedNoGrowth(t[j], t[j].Keys, build, name);
      }
      assert Bounded(released, job, name, n);
      CleanUpNoGrowth(released, j, buildExists, job, name);
    }
  }

  /** One call into the stage gate, with the environment it sees. */
  datatype Op =
    | EnterOp(job: string, name: string, flow: Flow, conc: Option<int>, ready: Ctx -> bool, buildExists: int -> bool)
    | ExitOp(job: string, build: int, buildExists: int -> bool)

  ghost function Step(t: Table, op: Op): Table
  {
    match op
    case EnterOp(j, k, r, conc, ready, buildExists) => Enter(t, j, k, r, conc, ready, buildExists).table
    case ExitOp(j, build, buildExists) => Exit(t, j, build, buildExists).table
  }

  /** The table after a sequence of calls, one at a time as the monitor serialises them. */
  ghost function Run(t: Table, ops: seq<Op>): Table
    decreases |ops|
  {
    if ops == [] then t else Run(Step(t, ops[0]), ops[1..])
  }

  /** An `enter` on the stage passes the limit `n`. */
  predicate Respects(op: Op, job: string, name: string, n: nat)
  {
    op.EnterOp? && op.job == job && op.name == name ==> op.conc == Some(n)
  }

  /**
   * If every `enter` on stage `name` of `job` passes the limit `n`, the stage
   * never holds more than `n` builds, through any mix of calls on any jobs
   * and stages.
   */
  lemma {:induction false} CapacityBound(t: Table, ops: seq<Op>, job: string, name: string, n: nat)
    requires Bounded(t, job, name, n)
    requires forall i :: 0 <= i < |ops| ==> Respects(ops[i], job, name, n)
    ensures Bounded(Run(t, ops), job, name, n)
    decreases |ops|
  {
    if ops != [] {
      var op := ops[0];
      if op.EnterOp? {
        assert Respects(op, job, name, n);
        EnterKeepsBound(t, job, name, n, op.job, op.name, op.flow, op.conc, op.ready, op.buildExists);
      } else {
        ExitKeepsBound(t, job, name, n, op.job, op.build, op.buildExists);
      }
      assert forall i :: 0 <= i < |ops[1..]| ==> ops[1..][i] == ops[i + 1];
      CapacityBound(Step(t, ops[0]), ops[1..], job, name, n);
    }
  }

  /** Every build of the examples below still exists. */
  predicate Alive(b: int)
  {
    true
  }

  /** Two builds hold stage "S" of "job" under a limit of 2. */
  const Before: Table := map["job" := map["S" := Stage({1, 2}, Some(2), None)]]
  /** Build 3 waits on "S", whose limit is now 1. */
  const Parked: Table := map["job" := map["S" := Stage({1, 2}, Some(1), Some(Flow(3, 3)))]]
  /** Builds 2 and 3 hold "S" under a limit of 1. */
  const After: Table := map["job" := map["S" := Stage({2, 3}, Some(1), None)]]

  /**
   * :341-343, first half: two builds hold "S" within its limit of 2; build 3
   * enters with limit 1, so it waits and the stage's limit drops to 1.
   */
  lemma LoweredLimitParks(ready: Ctx -> bool)
    ensures Bounded(Before, "job", "S", 2)
    ensures Enter(Before, "job", "S", Flow(3, 3), Some(1), ready, Alive).table == Parked
  {
    var stages := map["S" := Stage({1, 2}, Some(1), None)];
    assert Before["job"]["S" := stages["S"]] == stages;
    assert Locate(Before, "job", "S", Some(1)) == map["job" := stages];
    EnterProceeds(Before, "job", "S", Flow(3, 3), Some(1), ready, Alive, Flow(3, 3), []);
    assert stages.Keys - {"S"} == {};
    assert Admitted(stages, "S", Flow(3, 3)) == Parked["job"];
    CleanUpKeepsLive(Parked, "job", Alive);
  }

  /** Cleanup of a job each of whose stages holds at least one build, and only builds that exist, changes nothing. */
  lemma CleanUpKeepsLive(t: Table, job: string, buildExists: int -> bool)
    requires job in t && t[job] != map[]
    requires forall k :: k in t[job] ==> t[job][k].holding != {}
    requires forall k, n :: k in t[job] && n in t[job][k].holding ==> buildExists(n)
    ensures CleanUp(t, job, buildExists) == t
  {
    forall k | k in t[job]
      ensures Pruned(t[job][k], buildExists) == t[job][k]
    {
      forall n | n in t[job][k].holding ensures buildExists(n) {
      }
      assert Pruned(t[job][k], buildExists).holding == t[job][k].holding;
    }
    assert NonEmptyStages(t[job], buildExists) == t[job];
  }

  /** Build 1 leaves "S", which admits its waiter. */
  lemma LoweredLimitReleases()
    ensures Released(Parked["job"], {"S"}, 1) == After["job"]
  {
    assert {1, 2} - {1} + {3} == {2, 3};
  }

  /**
   * :341-343, second half: when build 1 exits, the waiter, build 3, is
   * unblocked, and "S" holds two builds against its limit of 1.
   */
  lemma LoweredLimitUnblocks()
    ensures Exit(Parked, "job", 1, Alive).table == After
    ensures After["job"]["S"].concurrency == Some(1) && !Bounded(After, "job", "S", 1)
  {
    var stages := Parked["job"];
    assert "S" in stages && 1 in stages["S"].holding;
    ExitReleases(Parked, "job", 1, Alive);
    assert stages.Keys == {"S"};
    LoweredLimitReleases();
    assert Parked["job" := After["job"]] == After;
    CleanUpKeepsLive(After, "job", Alive);
  }
}
