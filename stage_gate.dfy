/**
 * The legacy stage gate as values: one `Stage` per (job, stage name), and the
 * effect of `enter`, `exit` and `cleanUp` on the whole table written as
 * functions. The class in StageStepExecution performs the same steps in
 * place and is proved to end in the states these functions describe.
 */
module StageGate {
  import KeyOrder

  datatype Option<+T> = None | Some(value: T) {
    function GetOr(default: T): T {
      if Some? then value else default
    }
  }

  /** An opaque step context: a suspended flow that can be resumed or failed. */
  type Ctx = int

  /** A flow at a stage step: the number of its build and its step context. */
  datatype Flow = Flow(build: int, ctx: Ctx)

  /**
   * One stage of one job: the builds admitted into it, its limit (None for
   * unbounded) and the single flow waiting to enter it, if any. The source
   * keeps the waiter as two fields (`waitingBuild`, `waitingContext`) that are
   * always set and cleared together.
   */
  datatype Stage = Stage(holding: set<int>, concurrency: Option<int>, waiting: Option<Flow>)

  /** What the gate does to a step context: `onSuccess`, or `onFailure` with a cause naming the newer build. */
  datatype Signal = Resumed(flow: Flow) | Canceled(flow: Flow, newerBuild: int)

  /** `enter` either completes or throws `IllegalStateException` (a flow re-entering the stage it waits on). */
  datatype Outcome = Entered | ReentryRejected

  /** Stages of one job by name, and jobs by full name. */
  type Stages = map<string, Stage>
  type Table = map<string, Stages>

  const NewStage: Stage := Stage({}, None, None)

  /** The test at :210 that admits a flow at once. */
  predicate HasCapacity(s: Stage)
  {
    s.concurrency.None? || |s.holding| < s.concurrency.value
  }

  /** The build numbers of an optional waiter. */
  function Builds(w: Option<Flow>): (r: set<int>)
    ensures w.None? <==> r == {}
    ensures forall b :: b in r <==> w.Some? && b == w.value.build
  {
    if w.Some? then {w.value.build} else {}
  }

  // ---------------------------------------------------------------- unblock

  /** `Stage.unblock`: the waiter moves into `holding` and the waiting slot empties. */
  function Unblocked(s: Stage): Stage
    requires s.waiting.Some?
  {
    s.(holding := s.holding + {s.waiting.value.build}, waiting := None)
  }

  /**
   * Unblocking admits exactly the waiter: its build is held afterwards, the
   * slot is empty, the limit is untouched, and `holding` grows by one unless
   * the build was already in it (the case the source only warns about).
   */
  lemma UnblockAdmitsWaiter(s: Stage)
    requires s.waiting.Some?
    ensures var u := Unblocked(s); var b := s.waiting.value.build;
      && b in u.holding && u.waiting.None? && u.concurrency == s.concurrency
      && s.holding <= u.holding && u.holding - s.holding <= {b}
      && |u.holding| == if b in s.holding then |s.holding| else |s.holding| + 1
  {
    var b := s.waiting.value.build;
    if b in s.holding {
      assert s.holding + {b} == s.holding;
    }
  }

  // ----------------------------------------------------------------- cancel

  /** `cancel(context, newer)`: fail the loser, naming the newer build, only when both contexts are ready. */
  function CancelSignals(loser: Flow, newer: Flow, ready: Ctx -> bool): (r: seq<Signal>)
    ensures r != [] <==> ready(loser.ctx) && ready(newer.ctx)
    ensures forall i :: 0 <= i < |r| ==> r[i] == Canceled(loser, newer.build)
    ensures |r| <= 1
  {
    if ready(loser.ctx) && ready(newer.ctx) then [Canceled(loser, newer.build)] else []
  }

  // ---------------------------------------------------------------- release

  /**
   * One stage once `build` moves on or finishes: if the stage held it, it no
   * longer does and its waiter, if any, is unblocked.
   */
  function Release(s: Stage, build: int): (Stage, seq<Signal>)
  {
    if build !in s.holding then (s, [])
    else
      var left := s.(holding := s.holding - {build});
      if left.waiting.Some? then (Unblocked(left), [Resumed(left.waiting.value)]) else (left, [])
  }

  /**
   * The loops of `enter` (:196-207) and `exit` (:229-237): the stages named in
   * `keys` are released one by one, in the map's key order, and their
   * signals are delivered in that order.
   */
  ghost function ReleaseAll(m: Stages, keys: set<string>, build: int): (r: (Stages, seq<Signal>))
    requires keys <= m.Keys
    ensures r.0.Keys == m.Keys
    decreases |keys|
  {
    if keys == {} then (m, [])
    else
      var k := KeyOrder.Least(keys);
      var step := Release(m[k], build);
      var rest := ReleaseAll(m[k := step.0], keys - {k}, build);
      (rest.0, step.1 + rest.1)
  }

  /** One step of the ordered release loop: the first key in order is released, then the rest. */
  lemma ReleaseAllStep(m: Stages, keys: set<string>, build: int, k: string)
    requires keys <= m.Keys && KeyOrder.IsLeast(k, keys)
    ensures var step := Release(m[k], build);
      var rest := ReleaseAll(m[k := step.0], keys - {k}, build);
      ReleaseAll(m, keys, build) == (rest.0, step.1 + rest.1)
  {
    KeyOrder.LeastUnique(k, KeyOrder.Least(keys), keys);
  }

  /**
   * A reference description of releasing `build` from the stages in `keys`,
   * stage by stage and independent of order.
   */
  function Released(m: Stages, keys: set<string>, build: int): (r: Stages)
    ensures r.Keys == m.Keys
  {
    map k | k in m ::
      if k in keys && build in m[k].holding
      then m[k].(holding := (m[k].holding - {build}) + Builds(m[k].waiting), waiting := None)
      else m[k]
  }

  /** The flows that releasing `build` from the stages in `keys` unblocks. */
  ghost predicate ResumesWaitersOf(m: Stages, keys: set<string>, build: int, signals: seq<Signal>)
  {
    forall e :: e in signals <==>
      exists k :: k in keys && k in m && build in m[k].holding && m[k].waiting.Some? && e == Resumed(m[k].waiting.value)
  }

  /**
   * The ordered loop agrees with the reference description: the stages in
   * `keys` that held `build` lose it and admit their waiter, every other stage
   * is unchanged, and the signals are exactly the resumptions of those waiters.
   */
  lemma {:induction false} ReleaseAllIsReleased(m: Stages, keys: set<string>, build: int)
    requires keys <= m.Keys
    ensures ReleaseAll(m, keys, build).0 == Released(m, keys, build)
    ensures ResumesWaitersOf(m, keys, build, ReleaseAll(m, keys, build).1)
    decreases |keys|
  {
    if keys != {} {
      var k := KeyOrder.Least(keys);
      ReleaseAllStep(m, keys, build, k);
      var step := Release(m[k], build);
      var m' := m[k := step.0];
      ReleaseAllIsReleased(m', keys - {k}, build);
      forall j | j in m
        ensures Released(m', keys - {k}, build)[j] == Released(m, keys, build)[j]
      {
        if j != k {
          assert m'[j] == m[j];
        }
      }
      ResumesStep(m, keys, build, k);
    }
  }

  /** The signal part of one step of the ordered release loop. */
  lemma ResumesStep(m: Stages, keys: set<string>, build: int, k: string)
    requires k in keys && keys <= m.Keys
    requires ResumesWaitersOf(m[k := Release(m[k], build).0], keys - {k}, build, ReleaseAll(m[k := Release(m[k], build).0], keys - {k}, build).1)
    ensures ResumesWaitersOf(m, keys, build, Release(m[k], build).1 + ReleaseAll(m[k := Release(m[k], build).0], keys - {k}, build).1)
  {
    var now := Release(m[k], build).1;
    var m' := m[k := Release(m[k], build).0];
    var later := ReleaseAll(m', keys - {k}, build).1;
    forall e
      ensures e in now + later <==>
        exists j :: j in keys && j in m && build in m[j].holding && m[j].waiting.Some? && e == Resumed(m[j].waiting.value)
    {
      if e in now {
        assert build in m[k].holding && m[k].waiting.Some? && e == Resumed(m[k].waiting.value);
      }
      if e in later {
        var j :| j in keys - {k} && j in m' && build in m'[j].holding && m'[j].waiting.Some? && e == Resumed(m'[j].waiting.value);
        assert m'[j] == m[j];
      }
      if exists j :: j in keys && j in m && build in m[j].holding && m[j].waiting.Some? && e == Resumed(m[j].waiting.value) {
        var j :| j in keys && j in m && build in m[j].holding && m[j].waiting.Some? && e == Resumed(m[j].waiting.value);
        if j == k {
          assert e in now;
        } else {
          assert m'[j] == m[j];
          assert e in later;
        }
      }
    }
  }

  /** A release loop over stages none of which holds `build` changes nothing and signals nobody. */
  lemma {:induction false} ReleaseAllNoHolder(m: Stages, keys: set<string>, build: int)
    requires keys <= m.Keys
    requires forall k :: k in keys ==> build !in m[k].holding
    ensures ReleaseAll(m, keys, build) == (m, [])
    decreases |keys|
  {
    if keys != {} {
      var k := KeyOrder.Least(keys);
      var step := Release(m[k], build);
      assert step == (m[k], []);
      assert m[k := step.0] == m;
      ReleaseAllNoHolder(m, keys - {k}, build);
      ReleaseAllStep(m, keys, build, k);
      var rest := ReleaseAll(m[k := step.0], keys - {k}, build);
      assert rest == (m, []);
      assert step.1 + rest.1 == [];
    }
  }

  // ---------------------------------------------------------------- cleanUp

  /** A stage without the holders whose build no longer exists (:251-259). */
  function Pruned(s: Stage, buildExists: int -> bool): (r: Stage)
    ensures r.holding <= s.holding
    ensures forall n :: n in r.holding <==> n in s.holding && buildExists(n)
    ensures r.concurrency == s.concurrency && r.waiting == s.waiting
  {
    s.(holding := set n | n in s.holding && buildExists(n))
  }

  /**
   * The stages `cleanUp` keeps (:260-263): the pruned stages whose `holding`
   * is not empty. The source only asserts that a stage it drops has no
   * waiter; with assertions disabled, a waiting flow goes with its stage.
   */
  function NonEmptyStages(m: Stages, buildExists: int -> bool): Stages
  {
    map k | k in m && Pruned(m[k], buildExists).holding != {} :: Pruned(m[k], buildExists)
  }

  /** `cleanUp(job, jobName)` (:244-268): prune dead holders, then empty stages, then the job entry if no stage is left. */
  function CleanUp(t: Table, job: string, buildExists: int -> bool): Table
    requires job in t
  {
    var stages := NonEmptyStages(t[job], buildExists);
    if stages == map[] then t - {job} else t[job := stages]
  }

  /**
   * What cleanup does to the table: other jobs are untouched; each stage of
   * `job` keeps exactly its existing holders, its limit and its waiter; a
   * stage survives iff it still holds an existing build, waiter or not; the
   * job entry survives iff a stage does.
   */
  lemma CleanUpEffect(t: Table, job: string, buildExists: int -> bool)
    requires job in t
    ensures var c := CleanUp(t, job, buildExists);
      && (forall j :: j != job ==> (j in c <==> j in t) && (j in c ==> c[j] == t[j]))
      && (job in c <==> exists k :: k in t[job] && Pruned(t[job][k], buildExists).holding != {})
      && (job in c ==> forall k ::
            (k in c[job] <==> k in t[job] && exists n :: n in t[job][k].holding && buildExists(n))
            && (k in c[job] ==> c[job][k].waiting == t[job][k].waiting && c[job][k].concurrency == t[job][k].concurrency
                                && forall n :: n in c[job][k].holding <==> n in t[job][k].holding && buildExists(n)))
  {
    var stages := NonEmptyStages(t[job], buildExists);
    if stages == map[] {
      forall k | k in t[job] ensures Pruned(t[job][k], buildExists).holding == {} {
        assert k !in stages;
      }
    } else {
      var k :| k in stages;
      assert k in t[job] && Pruned(t[job][k], buildExists).holding != {};
      forall k | k in t[job]
        ensures k in stages <==> exists n :: n in t[job][k].holding && buildExists(n)
      {
        var p := Pruned(t[job][k], buildExists);
        if !exists n :: n in t[job][k].holding && buildExists(n) {
          assert p.holding == {};
        }
        if exists n :: n in t[job][k].holding && buildExists(n) {
          var n :| n in t[job][k].holding && buildExists(n);
          assert n in p.holding;
        }
      }
    }
  }

  /** A second cleanup with the same existence test changes nothing. */
  lemma CleanUpIdempotent(t: Table, job: string, buildExists: int -> bool)
    requires job in t
    ensures var c := CleanUp(t, job, buildExists); job in c ==> CleanUp(c, job, buildExists) == c
  {
    var c := CleanUp(t, job, buildExists);
    if job in c {
      var m := c[job];
      assert m == NonEmptyStages(t[job], buildExists);
      forall k | k in m ensures Pruned(m[k], buildExists) == m[k] {
        assert Pruned(m[k], buildExists).holding == m[k].holding;
      }
      assert NonEmptyStages(m, buildExists) == m;
      assert m != map[];
      assert c[job := m] == c;
    }
  }

  /** The rule the assertion at :261 intends: a pruned stage is kept while it holds a build or a flow waits on it. */
  predicate Retained(s: Stage)
  {
    s.holding != {} || s.waiting.Some?
  }

  function RetainedStages(m: Stages, buildExists: int -> bool): Stages
  {
    map k | k in m && Retained(Pruned(m[k], buildExists)) :: Pruned(m[k], buildExists)
  }

  /** `cleanUp` as its assertion at :261 intends: a stage with a waiting flow is not dropped. */
  function CleanUpKeepingWaiters(t: Table, job: string, buildExists: int -> bool): Table
    requires job in t
  {
    var stages := RetainedStages(t[job], buildExists);
    if stages == map[] then t - {job} else t[job := stages]
  }

  /**
   * The intended cleanup never loses a waiter: every flow waiting before still
   * waits, on the same stage; and it keeps every stage the source keeps.
   */
  lemma CleanUpKeepsWaiters(t: Table, job: string, buildExists: int -> bool, name: string)
    requires job in t && name in t[job] && t[job][name].waiting.Some?
    ensures var c := CleanUpKeepingWaiters(t, job, buildExists);
      job in c && name in c[job] && c[job][name].waiting == t[job][name].waiting
    ensures var c := CleanUpKeepingWaiters(t, job, buildExists); var w := CleanUp(t, job, buildExists);
      job in w ==> forall k :: k in w[job] ==> k in c[job] && c[job][k] == w[job][k]
  {
    var stages := RetainedStages(t[job], buildExists);
    assert name in stages;
  }

  /** Where the source's own assertion at :261 holds, the code is exactly the intended rule. */
  lemma CleanUpAgreesWhenAssertionHolds(t: Table, job: string, buildExists: int -> bool)
    requires job in t
    requires forall k :: k in t[job] && Pruned(t[job][k], buildExists).holding == {} ==> t[job][k].waiting.None?
    ensures CleanUp(t, job, buildExists) == CleanUpKeepingWaiters(t, job, buildExists)
  {
    assert NonEmptyStages(t[job], buildExists) == RetainedStages(t[job], buildExists);
  }

  // ------------------------------------------------------------------ enter

  /** :162-172: the job entry and the stage are created if missing, and the caller's limit replaces the stage's. */
  function Locate(t: Table, job: string, name: string, conc: Option<int>): Table
  {
    var stages := if job in t then t[job] else map[];
    var stage := if name in stages then stages[name] else NewStage;
    t[job := stages[name := stage.(concurrency := conc)]]
  }

  /** Who keeps the waiting slot (:174-195), and the cancellation that decides it. */
  datatype Contention = Contender(flow: Flow, signals: seq<Signal>) | Reentry

  function Contend(waiting: Option<Flow>, r: Flow, ready: Ctx -> bool): Contention
  {
    match waiting
    case None => Contender(r, [])
    case Some(w) =>
      if w.build < r.build then Contender(r, CancelSignals(w, r, ready))
      else if w.build > r.build then Contender(w, CancelSignals(r, w, ready))
      else Reentry
  }

  /** :208-214: the contender takes the waiting slot and is unblocked at once if there is room. */
  function Park(s: Stage, c: Flow): (r: (Stage, seq<Signal>))
    ensures r.0.concurrency == s.concurrency
  {
    var parked := s.(waiting := Some(c));
    if HasCapacity(parked) then (Unblocked(parked), [Resumed(c)]) else (parked, [])
  }

  /** The job's stages once the contender `c` has entered stage `name`, before cleanup (:196-214). */
  ghost function Admitted(stages: Stages, name: string, c: Flow): (r: Stages)
    requires name in stages
    ensures r.Keys == stages.Keys && r[name] == Park(stages[name], c).0
  {
    ReleaseAll(stages, stages.Keys - {name}, c.build).0[name := Park(stages[name], c).0]
  }

  /** The result of `enter`: its outcome, the table it leaves and the signals it delivers, in order. */
  datatype Admission = Admission(outcome: Outcome, table: Table, signals: seq<Signal>)

  /** `enter` up to (not including) its cleanup (:159-214). */
  ghost function Admit(t: Table, job: string, name: string, r: Flow, conc: Option<int>, ready: Ctx -> bool): Admission
  {
    var located := Locate(t, job, name, conc);
    var stages := located[job];
    match Contend(stages[name].waiting, r, ready)
    case Reentry => Admission(ReentryRejected, located, [])
    case Contender(c, cancels) =>
      Admission(Entered, located[job := Admitted(stages, name, c)],
                cancels + ReleaseAll(stages, stages.Keys - {name}, c.build).1 + Park(stages[name], c).1)
  }

  /** `enter(r, context, name, concurrency)` (:156-217) on a loaded table. */
  ghost function Enter(t: Table, job: string, name: string, r: Flow, conc: Option<int>, ready: Ctx -> bool, buildExists: int -> bool): Admission
  {
    var a := Admit(t, job, name, r, conc, ready);
    if a.outcome == Entered then a.(table := CleanUp(a.table, job, buildExists)) else a
  }

  /** `Enter` when the same build already waits on the stage: only the located stage remains, and nobody is signalled. */
  lemma EnterRejects(t: Table, job: string, name: string, r: Flow, conc: Option<int>, ready: Ctx -> bool, buildExists: int -> bool)
    requires Contend(Locate(t, job, name, conc)[job][name].waiting, r, ready).Reentry?
    ensures Enter(t, job, name, r, conc, ready, buildExists) == Admission(ReentryRejected, Locate(t, job, name, conc), [])
  {
  }

  /** `Enter` once the contender `c` is known, spelled out as the method performs it. */
  lemma EnterProceeds(t: Table, job: string, name: string, r: Flow, conc: Option<int>, ready: Ctx -> bool, buildExists: int -> bool,
                      c: Flow, cancels: seq<Signal>)
    requires Contend(Locate(t, job, name, conc)[job][name].waiting, r, ready) == Contender(c, cancels)
    ensures var located := Locate(t, job, name, conc);
      var e := Enter(t, job, name, r, conc, ready, buildExists);
      && e.outcome == Entered
      && e.table == CleanUp(located[job := Admitted(located[job], name, c)], job, buildExists)
      && e.signals == cancels + ReleaseAll(located[job], located[job].Keys - {name}, c.build).1 + Park(located[job][name], c).1
  {
  }

  /** The flow that ends up owning the contested slot: the incoming one unless an existing waiter is newer. */
  function ContenderOf(waiting: Option<Flow>, r: Flow): Flow
  {
    if waiting.Some? && waiting.value.build > r.build then waiting.value else r
  }

  /**
   * :162-172: after `enter`, whatever its outcome and before cleanup, the job
   * and the stage exist, the stage's limit is the caller's, and the job gained
   * no stage but this one.
   */
  lemma AdmitLocatesStage(t: Table, job: string, name: string, r: Flow, conc: Option<int>, ready: Ctx -> bool)
    ensures var a := Admit(t, job, name, r, conc, ready);
      && job in a.table && name in a.table[job] && a.table[job][name].concurrency == conc
      && a.table[job].Keys == (if job in t then t[job].Keys else {}) + {name}
  {
    AdmitHasStage(t, job, name, r, conc, ready);
  }

  lemma AdmitHasStage(t: Table, job: string, name: string, r: Flow, conc: Option<int>, ready: Ctx -> bool)
    ensures var a := Admit(t, job, name, r, conc, ready);
      job in a.table && name in a.table[job] && a.table[job][name].concurrency == conc
  {
  }

  /** `enter` touches no job but its own. */
  lemma AdmitKeepsOtherJobs(t: Table, job: string, name: string, r: Flow, conc: Option<int>, ready: Ctx -> bool)
    ensures var a := Admit(t, job, name, r, conc, ready);
      forall j :: j != job ==> (j in a.table <==> j in t) && (j in t ==> a.table[j] == t[j])
  {
  }

  /**
   * The tie-break at :174-194. With a waiter `w` on the stage: a newer
   * incoming flow cancels `w` (if both contexts are ready) and takes over; an
   * older incoming flow is itself cancelled and `w` stays the contender; the
   * same build is rejected, leaving only the located stage and no signal.
   * Afterwards the contender holds the stage or waits on it, and the loser
   * does neither.
   */
  lemma AdmitTieBreak(t: Table, job: string, name: string, r: Flow, conc: Option<int>, ready: Ctx -> bool)
    requires job in t && name in t[job] && t[job][name].waiting.Some?
    ensures var w := t[job][name].waiting.value; var a := Admit(t, job, name, r, conc, ready);
      && (a.outcome == ReentryRejected <==> w.build == r.build)
      && (w.build == r.build ==> a.table == Locate(t, job, name, conc) && a.signals == [])
      && (w.build < r.build ==>
            && a.signals[..|CancelSignals(w, r, ready)|] == CancelSignals(w, r, ready)
            && var s := a.table[job][name];
               (s.waiting == Some(r) || (s.waiting.None? && r.build in s.holding)) && s.waiting != Some(w))
      && (w.build > r.build ==>
            && a.signals[..|CancelSignals(r, w, ready)|] == CancelSignals(r, w, ready)
            && var s := a.table[job][name];
               (s.waiting == Some(w) || (s.waiting.None? && w.build in s.holding)) && s.waiting != Some(r))
  {
    var w := t[job][name].waiting.value;
    var a := Admit(t, job, name, r, conc, ready);
    var stages := Locate(t, job, name, conc)[job];
    if w.build != r.build {
      var c := ContenderOf(Some(w), r);
      var cancels := Contend(stages[name].waiting, r, ready).signals;
      var resumed := ReleaseAll(stages, stages.Keys - {name}, c.build).1;
      var parked := Park(stages[name], c);
      assert a.signals == cancels + resumed + parked.1;
      assert a.table[job][name] == parked.0;
    }
  }

  /**
   * :208-214: after `enter` (before cleanup), if the stage has no limit or
   * holds fewer builds than its limit, the contender's build is held and the
   * slot is empty, and the last signal resumes the contender; otherwise the
   * contender waits and `holding` is as it was.
   */
  lemma AdmitParksOrAdmits(t: Table, job: string, name: string, r: Flow, conc: Option<int>, ready: Ctx -> bool)
    requires Admit(t, job, name, r, conc, ready).outcome == Entered
    ensures var before := Locate(t, job, name, conc)[job][name];
      var c := ContenderOf(before.waiting, r);
      var a := Admit(t, job, name, r, conc, ready);
      var after := a.table[job][name];
      && after.concurrency == conc
      && if conc.None? || |before.holding| < conc.value
         then after.holding == before.holding + {c.build} && after.waiting.None?
              && |a.signals| > 0 && a.signals[|a.signals| - 1] == Resumed(c)
         else after.holding == before.holding && after.waiting == Some(c)
  {
    var stages := Locate(t, job, name, conc)[job];
    var c := ContenderOf(stages[name].waiting, r);
    assert Contend(stages[name].waiting, r, ready).flow == c;
  }

  /**
   * :196-207: during `enter` every other stage of the job that held the
   * contender's build loses it and admits its waiter; the other stages are
   * unchanged.
   */
  lemma AdmitReleasesOtherStages(t: Table, job: string, name: string, r: Flow, conc: Option<int>, ready: Ctx -> bool)
    requires Admit(t, job, name, r, conc, ready).outcome == Entered
    ensures var stages := Locate(t, job, name, conc)[job];
      var c := ContenderOf(stages[name].waiting, r);
      Admit(t, job, name, r, conc, ready).table[job] - {name} == Released(stages, stages.Keys - {name}, c.build) - {name}
  {
    var stages := Locate(t, job, name, conc)[job];
    var c := ContenderOf(stages[name].waiting, r);
    var others := stages.Keys - {name};
    ReleaseAllIsReleased(stages, others, c.build);
    assert Contend(stages[name].waiting, r, ready).flow == c;
    var released := ReleaseAll(stages, others, c.build).0;
    assert Admit(t, job, name, r, conc, ready).table[job] == released[name := Park(stages[name], c).0];
  }

  /**
   * :174-214: the signals of an `enter` that completes come in three runs: at
   * most one cancellation, of the older flow in favour of the newer, and none
   * when nobody waited; then the resumptions
   * of the waiters of the other stages the contender's build held; then the
   * contender's own, exactly when the stage had room for it.
   */
  lemma AdmitSignalOrder(t: Table, job: string, name: string, r: Flow, conc: Option<int>, ready: Ctx -> bool)
    requires Admit(t, job, name, r, conc, ready).outcome == Entered
    ensures var stages := Locate(t, job, name, conc)[job];
      var c := ContenderOf(stages[name].waiting, r);
      exists cancels, resumed, admitted ::
        Admit(t, job, name, r, conc, ready).signals == cancels + resumed + admitted
        && |cancels| <= 1 && (stages[name].waiting.None? ==> cancels == [])
        && (stages[name].waiting.Some? && stages[name].waiting.value.build < r.build ==>
              cancels == CancelSignals(stages[name].waiting.value, r, ready))
        && (stages[name].waiting.Some? && stages[name].waiting.value.build > r.build ==>
              cancels == CancelSignals(r, stages[name].waiting.value, ready))
        && ResumesWaitersOf(stages, stages.Keys - {name}, c.build, resumed)
        && admitted == if conc.None? || |stages[name].holding| < conc.value then [Resumed(c)] else []
  {
    var stages := Locate(t, job, name, conc)[job];
    var c := ContenderOf(stages[name].waiting, r);
    var others := stages.Keys - {name};
    ReleaseAllIsReleased(stages, others, c.build);
    var contention := Contend(stages[name].waiting, r, ready);
    assert contention.flow == c;
    var resumed := ReleaseAll(stages, others, c.build).1;
    var admitted := Park(stages[name], c).1;
    assert Admit(t, job, name, r, conc, ready).signals == contention.signals + resumed + admitted;
  }

  /**
   * :215-216: the cleanup that ends a completed `enter` keeps the stage iff,
   * once the contender is parked or admitted, it holds a build that still
   * exists; a kept stage has the caller's limit and the same waiter. So a
   * contender admitted with an existing build keeps its stage, and one that
   * must wait on a stage no existing build holds is dropped with it.
   */
  lemma EnterKeepsStage(t: Table, job: string, name: string, r: Flow, conc: Option<int>, ready: Ctx -> bool, buildExists: int -> bool)
    requires Enter(t, job, name, r, conc, ready, buildExists).outcome == Entered
    ensures var s := Admit(t, job, name, r, conc, ready).table[job][name];
      var e := Enter(t, job, name, r, conc, ready, buildExists);
      && (job in e.table && name in e.table[job] <==> exists n :: n in s.holding && buildExists(n))
      && (job in e.table && name in e.table[job] ==> e.table[job][name].concurrency == conc && e.table[job][name].waiting == s.waiting)
    ensures var c := ContenderOf(Locate(t, job, name, conc)[job][name].waiting, r);
      var e := Enter(t, job, name, r, conc, ready, buildExists);
      Admit(t, job, name, r, conc, ready).table[job][name].waiting.None? && buildExists(c.build) ==>
        job in e.table && name in e.table[job]
  {
    var a := Admit(t, job, name, r, conc, ready);
    AdmitParksOrAdmits(t, job, name, r, conc, ready);
    AdmitHasStage(t, job, name, r, conc, ready);
    CleanUpEffect(a.table, job, buildExists);
  }

  /** With the intended cleanup, an `enter` that completes keeps its stage whenever the contender's build exists. */
  lemma EnterKeepingWaitersKeepsStage(t: Table, job: string, name: string, r: Flow, conc: Option<int>, ready: Ctx -> bool,
                                      buildExists: int -> bool)
    requires Admit(t, job, name, r, conc, ready).outcome == Entered
    requires buildExists(ContenderOf(Locate(t, job, name, conc)[job][name].waiting, r).build)
    ensures var c := CleanUpKeepingWaiters(Admit(t, job, name, r, conc, ready).table, job, buildExists);
      job in c && name in c[job] && c[job][name].concurrency == conc
  {
    var a := Admit(t, job, name, r, conc, ready);
    AdmitParksOrAdmits(t, job, name, r, conc, ready);
    var c := ContenderOf(Locate(t, job, name, conc)[job][name].waiting, r);
    var s := a.table[job][name];
    assert s.waiting.Some? || (c.build in s.holding && buildExists(c.build));
    assert name in RetainedStages(a.table[job], buildExists);
  }

  // ------------------------------------------------------------------- exit

  /** Some stage of the job holds `build`. */
  ghost predicate HoldsAny(stages: Stages, build: int)
  {
    exists k :: k in stages && build in stages[k].holding
  }

  /** The result of `exit`: the table it leaves, the signals it delivers, and whether it saved. */
  datatype Departure = Departure(table: Table, signals: seq<Signal>, modified: bool)

  /** `exit(r)` (:219-242) on a loaded table. */
  ghost function Exit(t: Table, job: string, build: int, buildExists: int -> bool): Departure
  {
    if job !in t then Departure(t, [], false)
    else
      var released := ReleaseAll(t[job], t[job].Keys, build);
      if HoldsAny(t[job], build) then Departure(CleanUp(t[job := released.0], job, buildExists), released.1, true)
      else Departure(t, [], false)
  }

  /** :225-227, :238: `exit` for an unknown job or a build holding nothing changes nothing, signals nobody and does not save. */
  lemma ExitWithoutHolding(t: Table, job: string, build: int, buildExists: int -> bool)
    requires job !in t || forall k :: k in t[job] ==> build !in t[job][k].holding
    ensures Exit(t, job, build, buildExists) == Departure(t, [], false)
  {
  }

  /**
   * :229-240: otherwise every stage that held the build loses it and admits
   * its waiter, the other stages are as they were, and the table is then
   * cleaned up and saved.
   */
  lemma ExitReleases(t: Table, job: string, build: int, buildExists: int -> bool)
    requires job in t && HoldsAny(t[job], build)
    ensures var d := Exit(t, job, build, buildExists);
      d.modified && d.table == CleanUp(t[job := Released(t[job], t[job].Keys, build)], job, buildExists)
  {
    ReleaseAllIsReleased(t[job], t[job].Keys, build);
  }

  /** :231-235: the signals of `exit` resume exactly the waiters of the stages that held the build. */
  lemma ExitResumesWaiters(t: Table, job: string, build: int, buildExists: int -> bool)
    requires job in t
    ensures ResumesWaitersOf(t[job], t[job].Keys, build, Exit(t, job, build, buildExists).signals)
  {
    ReleaseAllIsReleased(t[job], t[job].Keys, build);
  }
}
