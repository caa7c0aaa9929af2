/**
 * The process-wide state of the legacy stage step and the operations that
 * change it, done step by step as the source does them. Each operation is
 * proved to end in the state that the matching function of StageGate
 * describes; the properties of those functions are proved there.
 */
module StageStepExecution {
  import opened StageGate
  import KeyOrder

  /** The table that `load()` leaves in place: the resident one, else the stored snapshot, else an empty table. */
  function LoadedTable(resident: Option<Table>, stored: Option<Table>): (t: Table)
    ensures resident.Some? ==> t == resident.value
    ensures resident.None? && stored.Some? ==> t == stored.value
    ensures resident.None? && stored.None? ==> t == map[]
  {
    if resident.Some? then resident.value else stored.GetOr(map[])
  }

  lemma SeqAssoc<T>(a: seq<T>, b: seq<T>, c: seq<T>)
    ensures (a + b) + c == a + (b + c)
  {
  }

  class StageTable {
    /** `stagesByNameByJob`: job full name to stage name to stage; None until loaded. */
    var stagesByNameByJob: Option<Table>
    /** The snapshot that `save()` last wrote; None while there is no file or it cannot be read. */
    var configFile: Option<Table>
    /** Every `onSuccess` and `onFailure` delivered to a step context, oldest first. */
    var signals: seq<Signal>

    constructor (stored: Option<Table>)
      ensures stagesByNameByJob == None && configFile == stored && signals == []
    {
      stagesByNameByJob := None;
      configFile := stored;
      signals := [];
    }

    /** `clear()`: forget the resident table, so that the next operation reloads it. */
    method Clear()
      modifies this`stagesByNameByJob
      ensures stagesByNameByJob == None
    {
      stagesByNameByJob := None;
    }

    /** `load()`: read the table once, when none is resident. */
    method Load()
      modifies this`stagesByNameByJob
      ensures stagesByNameByJob == Some(LoadedTable(old(stagesByNameByJob), configFile))
    {
      if stagesByNameByJob.None? {
        stagesByNameByJob := Some(map[]);
        if configFile.Some? {
          stagesByNameByJob := configFile;
        }
      }
    }

    /** `save()`: write the resident table. */
    method Save()
      requires stagesByNameByJob.Some?
      modifies this`configFile
      ensures configFile == stagesByNameByJob
    {
      configFile := stagesByNameByJob;
    }

    /**
     * `save()`, `clear()` and `load()` in turn (:127-154): a table forgotten
     * after it was saved comes back unchanged from the snapshot, and later
     * loads keep it resident.
     */
    method SaveClearLoad()
      requires stagesByNameByJob.Some?
      modifies this`stagesByNameByJob, this`configFile
      ensures stagesByNameByJob == old(stagesByNameByJob) && configFile == old(stagesByNameByJob)
    {
      Save();
      Clear();
      Load();
      Load();
    }

    /** `Stage.unblock`: resume the waiter and move its build into `holding`. */
    method Unblock(stage: Stage) returns (unblocked: Stage)
      requires stage.waiting.Some?
      modifies this`signals
      ensures unblocked == Unblocked(stage)
      ensures signals == old(signals) + [Resumed(stage.waiting.value)]
    {
      var waiter := stage.waiting.value;
      signals := signals + [Resumed(waiter)];
      unblocked := stage.(holding := stage.holding + {waiter.build}, waiting := None);
    }

    /** `cancel(context, newer)`: fail `context` in favour of `newer`, only if both are ready. */
    method Cancel(context: Flow, newer: Flow, ready: Ctx -> bool)
      modifies this`signals
      ensures signals == old(signals) + CancelSignals(context, newer, ready)
    {
      if ready(context.ctx) && ready(newer.ctx) {
        signals := signals + [Canceled(context, newer.build)];
      }
    }

    /** One stage of the release loop (:201-206, :230-236): drop `build` from `holding` and, if it was there, unblock the waiter. */
    method ReleaseStage(stage: Stage, build: int) returns (released: Stage, held: bool)
      modifies this`signals
      ensures held <==> build in stage.holding
      ensures released == Release(stage, build).0
      ensures signals == old(signals) + Release(stage, build).1
    {
      released := stage;
      held := build in stage.holding;
      if held {
        released := released.(holding := released.holding - {build});
        if released.waiting.Some? {
          released := Unblock(released);
        }
      }
    }

    /**
     * The loop shared by `enter` (:196-207) and `exit` (:229-237): visit the
     * stages named in `keys` in the map's key order; each that holds `build`
     * loses it and unblocks its waiter. `modified` says whether any held it.
     */
    method ReleaseFrom(stagesByName: Stages, keys: set<string>, build: int) returns (released: Stages, modified: bool)
      requires keys <= stagesByName.Keys
      modifies this`signals
      ensures released == ReleaseAll(stagesByName, keys, build).0
      ensures signals == old(signals) + ReleaseAll(stagesByName, keys, build).1
      ensures modified <==> exists k :: k in keys && build in stagesByName[k].holding
    {
      released := stagesByName;
      modified := false;
      var remaining := keys;
      while remaining != {}
        invariant remaining <= keys
        invariant released.Keys == stagesByName.Keys
        invariant forall k :: k in remaining ==> released[k] == stagesByName[k]
        invariant ReleaseAll(released, remaining, build).0 == ReleaseAll(stagesByName, keys, build).0
        invariant signals + ReleaseAll(released, remaining, build).1 == old(signals) + ReleaseAll(stagesByName, keys, build).1
        invariant modified <==> exists k :: k in keys - remaining && build in stagesByName[k].holding
        decreases |remaining|
      {
        KeyOrder.LeastExists(remaining);
        var name :| KeyOrder.IsLeast(name, remaining);
        ReleaseAllStep(released, remaining, build, name);
        ghost var step := Release(released[name], build);
        ghost var before := signals;
        ghost var visited := keys - remaining;
        ghost var rest := ReleaseAll(released[name := step.0], remaining - {name}, build);
        var stage, held := ReleaseStage(released[name], build);
        modified := modified || held;
        released := released[name := stage];
        remaining := remaining - {name};
        assert keys - remaining == visited + {name};
        assert ReleaseAll(released, remaining, build) == rest;
        SeqAssoc(before, step.1, rest.1);
      }
    }

    /** The inner loop of `cleanUp` (:249-259): the holders of `stage` whose build still exists. */
    static method LiveHolders(stage: Stage, buildExists: int -> bool) returns (holding: set<int>)
      ensures forall n :: n in holding <==> n in stage.holding && buildExists(n)
      ensures holding == Pruned(stage, buildExists).holding
    {
      holding := stage.holding;
      var unchecked := holding;
      while unchecked != {}
        invariant unchecked <= holding
        invariant forall n :: n in holding <==> n in stage.holding && (n in unchecked || buildExists(n))
        decreases |unchecked|
      {
        // Only supplies the witness for the choice below; the loop guard already excludes this.
        if forall n :: n !in unchecked {
          assert false;
        }
        var number :| number in unchecked;
        if !buildExists(number) {
          holding := holding - {number};
        }
        unchecked := unchecked - {number};
      }
    }

    /**
     * `cleanUp(job, jobName)` (:244-268): drop from every stage of the job the
     * holders whose build no longer exists, then the stages left empty, then
     * the job entry if no stage is left. A stage left with no holder is
     * dropped even if a flow waits on it, as the source does with assertions
     * disabled.
     */
    method CleanUp(jobName: string, buildExists: int -> bool)
      requires stagesByNameByJob.Some? && jobName in stagesByNameByJob.value
      modifies this`stagesByNameByJob
      ensures stagesByNameByJob == Some(StageGate.CleanUp(old(stagesByNameByJob.value), jobName, buildExists))
    {
      var t := stagesByNameByJob.value;
      var stagesByName := t[jobName];
      var kept := stagesByName;
      var unvisited := stagesByName.Keys;
      while unvisited != {}
        invariant unvisited <= stagesByName.Keys
        invariant kept.Keys <= stagesByName.Keys
        invariant forall k :: k in unvisited ==> k in kept && kept[k] == stagesByName[k]
        invariant forall k :: k in stagesByName && k !in unvisited ==>
                    (k in kept <==> Pruned(stagesByName[k], buildExists).holding != {})
                    && (k in kept ==> kept[k] == Pruned(stagesByName[k], buildExists))
        decreases |unvisited|
      {
        var name :| name in unvisited;
        var stage := stagesByName[name];
        var holding := LiveHolders(stage, buildExists);
        if holding == {} {
          kept := kept - {name};
        } else {
          kept := kept[name := stage.(holding := holding)];
        }
        unvisited := unvisited - {name};
      }
      assert kept == NonEmptyStages(stagesByName, buildExists);
      if kept == map[] {
        t := t - {jobName};
      } else {
        t := t[jobName := kept];
      }
      stagesByNameByJob := Some(t);
    }

    /**
     * The tie-break of `enter` (:174-194) against the stage's `waiting` slot:
     * cancel the older of the waiter and `r` and return the other as the
     * contender, or refuse a flow of the build that is already waiting.
     */
    method Contest(waiting: Option<Flow>, r: Flow, ready: Ctx -> bool) returns (contention: Contention)
      modifies this`signals
      ensures contention == Contend(waiting, r, ready)
      ensures contention.Reentry? ==> signals == old(signals)
      ensures contention.Contender? ==> signals == old(signals) + contention.signals
    {
      var build := r.build;
      var context := r.ctx;
      var before := signals;
      if waiting.Some? {
        var waiter := waiting.value;
        if waiter.build < build {
          Cancel(waiter, r, ready);
        } else if waiter.build > build {
          Cancel(r, waiter, ready);
          build := waiter.build;
          context := waiter.ctx;
        } else {
          return Reentry;
        }
        return Contender(Flow(build, context), signals[|before|..]);
      }
      return Contender(r, []);
    }

    /**
     * :196-214: release the contender's build from every other stage of the
     * job, then put the contender in the `waiting` slot of stage `name` and
     * unblock it at once if the stage has room.
     */
    method Seat(stagesByName: Stages, name: string, c: Flow) returns (admitted: Stages)
      requires name in stagesByName
      modifies this`signals
      ensures admitted == Admitted(stagesByName, name, c)
      ensures signals == old(signals) + ReleaseAll(stagesByName, stagesByName.Keys - {name}, c.build).1 + Park(stagesByName[name], c).1
    {
      var released, _ := ReleaseFrom(stagesByName, stagesByName.Keys - {name}, c.build);
      ghost var releasing := signals;
      var stage := stagesByName[name].(waiting := Some(c));
      if stage.concurrency.None? || |stage.holding| < stage.concurrency.value {
        stage := Unblock(stage);
      }
      assert stage == Park(stagesByName[name], c).0 && signals == releasing + Park(stagesByName[name], c).1;
      admitted := released[name := stage];
    }

    /**
     * `enter(r, context, name, concurrency)` (:156-217) for the flow `r` of job
     * `jobName`. Ends in the state StageGate.Enter describes; saves only if it
     * completes.
     */
    method Enter(jobName: string, name: string, r: Flow, concurrency: Option<int>, ready: Ctx -> bool, buildExists: int -> bool)
      returns (outcome: Outcome)
      modifies this
      ensures var e := StageGate.Enter(LoadedTable(old(stagesByNameByJob), old(configFile)), jobName, name, r, concurrency, ready, buildExists);
        && outcome == e.outcome
        && stagesByNameByJob == Some(e.table)
        && signals == old(signals) + e.signals
        && configFile == if outcome == Entered then Some(e.table) else old(configFile)
    {
      Load();
      ghost var loaded := stagesByNameByJob.value;
      var t := stagesByNameByJob.value;
      var stagesByName: Stages := map[];
      if jobName in t {
        stagesByName := t[jobName];
      }
      var stage := NewStage;
      if name in stagesByName {
        stage := stagesByName[name];
      }
      stage := stage.(concurrency := concurrency);
      stagesByName := stagesByName[name := stage];
      t := t[jobName := stagesByName];
      stagesByNameByJob := Some(t);
      assert t == Locate(loaded, jobName, name, concurrency);
      ghost var start := signals;
      var contention := Contest(stage.waiting, r, ready);
      if contention.Reentry? {
        EnterRejects(loaded, jobName, name, r, concurrency, ready, buildExists);
        return ReentryRejected;
      }
      EnterProceeds(loaded, jobName, name, r, concurrency, ready, buildExists, contention.flow, contention.signals);
      ghost var resumed := ReleaseAll(stagesByName, stagesByName.Keys - {name}, contention.flow.build).1;
      ghost var parked := Park(stagesByName[name], contention.flow).1;
      var admitted := Seat(stagesByName, name, contention.flow);
      SeqAssoc(start, contention.signals, resumed);
      SeqAssoc(start, contention.signals + resumed, parked);
      t := t[jobName := admitted];
      stagesByNameByJob := Some(t);
      CleanUp(jobName, buildExists);
      Save();
      outcome := Entered;
    }

    /**
     * `exit(r)` (:219-242) for build `build` of job `jobName`: release the
     * build from every stage, then clean up and save if any stage held it.
     */
    method Exit(jobName: string, build: int, buildExists: int -> bool)
      modifies this
      ensures var d := StageGate.Exit(LoadedTable(old(stagesByNameByJob), old(configFile)), jobName, build, buildExists);
        && stagesByNameByJob == Some(d.table)
        && signals == old(signals) + d.signals
        && configFile == if d.modified then Some(d.table) else old(configFile)
    {
      Load();
      var t := stagesByNameByJob.value;
      if jobName !in t {
        return;
      }
      var stagesByName := t[jobName];
      var released, modified := ReleaseFrom(stagesByName, stagesByName.Keys, build);
      if !modified {
        ReleaseAllNoHolder(stagesByName, stagesByName.Keys, build);
        assert t[jobName := released] == t;
      }
      stagesByNameByJob := Some(t[jobName := released]);
      if modified {
        CleanUp(jobName, buildExists);
        Save();
      }
    }
  }
}
