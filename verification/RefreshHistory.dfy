/** The scheduler with the history of its critical sections. Each method of the scheduler is one step of
    RefreshRuns, so what is proved of runs holds of the scheduler's own map and timers at every moment. */
module RefreshHistory {
  import opened Text
  import opened RefreshTarget
  import opened RefreshProtocol
  import opened RefreshScheduler
  import opened RefreshRuns

  lemma {:induction false} StepsConcat(w: World, steps: seq<Step>, s: Step)
    requires StepsLegal(w, steps) && StepEnabled(StepsRun(w, steps), s)
    ensures StepsLegal(w, steps + [s]) && StepsRun(w, steps + [s]) == StepNext(StepsRun(w, steps), s)
    decreases |steps|
  {
    if steps == [] {
      assert steps + [s] == [s] && [s][1..] == [];
    } else {
      assert (steps + [s])[1..] == steps[1..] + [s];
      StepsConcat(StepNext(w, steps[0]), steps[1..], s);
    }
  }

  lemma {:induction false} BlankNeverSteps(w: World, steps: seq<Step>)
    requires StepsLegal(w, steps)
    ensures TrackOf(StepsRun(w, steps), "") == TrackOf(w, "")
    decreases |steps|
  {
    if steps != [] {
      BlankNeverSteps(StepNext(w, steps[0]), steps[1..]);
    }
  }

  /** `steps` is a ghost: which critical sections ran, in their order. */
  class RecordedScheduler {
    const scheduler: OperationRefreshScheduler
    ghost var steps: seq<Step>

    /** The history is a run, and each key's machine is in the state the scheduler shows. */
    ghost predicate Valid()
      reads this, scheduler, scheduler.runtime, scheduler.targets.Values
    {
      && scheduler.Valid()
      && StepsLegal(map[], steps)
      && forall key :: TrackOf(StepsRun(map[], steps), key).cell == scheduler.View(key)
    }

    ghost function Open(key: GoString): nat
      requires StepsLegal(map[], steps)
      reads this
    {
      TrackOf(StepsRun(map[], steps), key).open
    }

    constructor (runtime: TimerRuntime)
      requires runtime.Valid() && runtime.armed == map[] && runtime.expired == map[]
      ensures Valid() && steps == [] && scheduler.runtime == runtime && fresh(scheduler)
    {
      scheduler := new OperationRefreshScheduler(runtime);
      steps := [];
    }

    /** One more step of the machine of one key, as the scheduler made it. */
    ghost method Record(s: Step, before: World)
      requires scheduler.Valid() && StepsLegal(map[], steps) && before == StepsRun(map[], steps)
      requires StepEnabled(before, s)
      requires scheduler.View(s.key) == Next(TrackOf(before, s.key), s.event).cell
      requires forall key :: key != s.key ==> scheduler.View(key) == TrackOf(before, key).cell
      modifies this`steps
      ensures Valid() && steps == old(steps) + [s]
    {
      StepsConcat(map[], steps, s);
      assert forall key :: TrackOf(StepNext(before, s), key).cell == scheduler.View(key);
      steps := steps + [s];
    }

    /** Every callback was armed for some key. */
    lemma CallbacksHaveKeys(timer: nat)
      requires Valid()
      ensures timer in scheduler.runtime.armed ==> scheduler.runtime.armed[timer].key != ""
      ensures timer in scheduler.runtime.expired ==> scheduler.runtime.expired[timer].key != ""
    {
      BlankNeverSteps(map[], steps);
      assert scheduler.View("") == INITIAL.cell;
      assert timer !in scheduler.View("").armed && timer !in scheduler.View("").expired;
    }

    method Begin(target: Target)
      requires Valid()
      modifies this, scheduler, scheduler.runtime, scheduler.targets.Values
      ensures Valid()
      ensures steps == if Key(target) == "" then old(steps) else old(steps) + [Step(Key(target), Event.Begin(target))]
      ensures Key(target) != "" ==> Begun(old(scheduler.View(Key(target))), target, scheduler.View(Key(target)))
    {
      BeginLeaves(scheduler.View(Key(target)), target);
      ghost var before := StepsRun(map[], steps);
      scheduler.BeginOperation(target);
      if Key(target) != "" {
        Record(Step(Key(target), Event.Begin(target)), before);
      }
    }

    /** A handler calls what `begin` gave it, once: one of its key's operations is open. */
    method Finish(target: Target)
      requires Valid() && (Key(target) != "" ==> Open(Key(target)) > 0)
      modifies this, scheduler, scheduler.runtime, scheduler.targets.Values
      ensures Valid()
      ensures Key(target) == "" ==> steps == old(steps)
      ensures Key(target) != "" ==> steps == old(steps) + [Step(Key(target), Event.Finish(old(scheduler.runtime.next)))]
      ensures Key(target) != "" ==>
                Finished(old(scheduler.View(Key(target))), old(scheduler.runtime.next), scheduler.View(Key(target)))
    {
      FinishLeaves(scheduler.View(Key(target)), scheduler.runtime.next);
      ghost var before, timer := StepsRun(map[], steps), scheduler.runtime.next;
      scheduler.NextTimerIsFresh(Key(target));
      scheduler.FinishOperation(target);
      if Key(target) != "" {
        Record(Step(Key(target), Event.Finish(timer)), before);
      }
    }

    method MarkDirty(target: Target)
      requires Valid()
      modifies this, scheduler, scheduler.runtime, scheduler.targets.Values
      ensures Valid()
      ensures Key(target) == "" ==> steps == old(steps)
      ensures Key(target) != "" ==> steps == old(steps) + [Step(Key(target), Event.MarkDirty(target, old(scheduler.runtime.next)))]
      ensures Key(target) != "" ==>
                Marked(old(scheduler.View(Key(target))), target, old(scheduler.runtime.next), scheduler.View(Key(target)))
    {
      MarkLeaves(scheduler.View(Key(target)), target, scheduler.runtime.next);
      ghost var before, timer := StepsRun(map[], steps), scheduler.runtime.next;
      scheduler.NextTimerIsFresh(Key(target));
      scheduler.MarkTargetDirty(target);
      if Key(target) != "" {
        Record(Step(Key(target), Event.MarkDirty(target, timer)), before);
      }
    }

    method Expire(timer: nat)
      requires Valid() && timer in scheduler.runtime.armed
      modifies this, scheduler.runtime
      ensures Valid()
      ensures steps == old(steps) + [Step(old(scheduler.runtime.armed)[timer].key, Event.Expire(timer))]
    {
      ghost var before, key := StepsRun(map[], steps), scheduler.runtime.armed[timer].key;
      CallbacksHaveKeys(timer);
      scheduler.ExpireCallback(timer);
      Record(Step(key, Event.Expire(timer)), before);
    }

    /** A callback that commits finds no operation open on its key, refreshes a target of that key, and
        its entry is dirty exactly when the key was marked since its last commit. */
    method Fire(timer: nat) returns (callback: Callback, committed: bool)
      requires Valid() && timer in scheduler.runtime.expired
      modifies this, scheduler, scheduler.runtime, scheduler.targets.Values
      ensures Valid() && callback == old(scheduler.runtime.expired)[timer]
      ensures steps == old(steps) + [Step(callback.key, Event.Fire(timer, old(scheduler.runtime.next)))]
      ensures Fired(old(scheduler.View(callback.key)), timer, old(scheduler.runtime.next), scheduler.View(callback.key))
      ensures Key(callback.target) == callback.key
      ensures committed ==> old(Open(callback.key)) == 0
      ensures var events := Only(old(steps), callback.key);
              && Legal(INITIAL, events)
              && (committed ==> (Dirty(old(scheduler.View(callback.key))) <==> exists k: nat :: MarkedAt(events, k)))
    {
      ghost var before, id := StepsRun(map[], steps), scheduler.runtime.next;
      ghost var key := scheduler.runtime.expired[timer].key;
      CallbacksHaveKeys(timer);
      scheduler.NextTimerIsFresh(key);
      assert timer in scheduler.View(key).expired;
      SchedulerIsSafe(steps, key);
      KeysRunAlone(map[], steps, key);
      DirtyExactlySinceMark(Only(steps, key));
      callback, committed := scheduler.FireCallback(timer);
      Record(Step(callback.key, Event.Fire(timer, id)), before);
    }
  }
}
