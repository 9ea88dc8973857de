/** The scheduler itself: a map from keys to mutable entries, and the Go runtime's timers. Each method
    is one critical section and is one step of RefreshProtocol for its own key and no step for others. */
module RefreshScheduler {
  import opened Options
  import opened Text
  import opened RefreshTarget
  import opened RefreshProtocol

  /** What `armLocked` closes over: the arguments of the later `fire`. */
  datatype Callback = Callback(key: GoString, target: Target)

  /** The callbacks for one key, each with the target it will refresh. */
  ghost function ForKey(callbacks: map<nat, Callback>, key: GoString): map<nat, Target> {
    map t | t in callbacks && callbacks[t].key == key :: callbacks[t].target
  }

  lemma ForKeyRemove(callbacks: map<nat, Callback>, t: nat)
    ensures forall k :: (t in callbacks ==> callbacks[t].key == k) ==>
              ForKey(callbacks - {t}, k) == ForKey(callbacks, k) - {t}
    ensures forall k :: (t in callbacks ==> callbacks[t].key != k) ==>
              ForKey(callbacks - {t}, k) == ForKey(callbacks, k)
  {
  }

  lemma ForKeyAdd(callbacks: map<nat, Callback>, t: nat, c: Callback)
    requires t !in callbacks
    ensures ForKey(callbacks[t := c], c.key) == ForKey(callbacks, c.key)[t := c.target]
    ensures forall k :: k != c.key ==> ForKey(callbacks[t := c], k) == ForKey(callbacks, k)
  {
  }

  /** `time.AfterFunc` and `Stop`. An expired callback has started and waits for the mutex. */
  class TimerRuntime {
    var armed: map<nat, Callback>
    var expired: map<nat, Callback>
    var next: nat

    ghost predicate Valid()
      reads this
    {
      && (forall t | t in armed :: t < next && t !in expired)
      && (forall t | t in expired :: t < next)
    }

    constructor ()
      ensures Valid() && armed == map[] && expired == map[]
    {
      armed, expired, next := map[], map[], 0;
    }

    method AfterFunc(key: GoString, target: Target) returns (timer: nat)
      requires Valid()
      modifies this
      ensures Valid() && timer == old(next) && next == timer + 1
      ensures armed == old(armed)[timer := Callback(key, target)] && expired == old(expired)
    {
      timer := next;
      armed := armed[timer := Callback(key, target)];
      next := next + 1;
    }

    method Stop(timer: nat)
      requires Valid()
      modifies this
      ensures Valid() && next == old(next)
      ensures armed == old(armed) - {timer} && expired == old(expired)
    {
      armed := armed - {timer};
    }

    method Expire(timer: nat)
      requires Valid() && timer in armed
      modifies this
      ensures Valid() && next == old(next)
      ensures armed == old(armed) - {timer} && expired == old(expired)[timer := old(armed)[timer]]
    {
      expired := expired[timer := armed[timer]];
      armed := armed - {timer};
    }

    method Take(timer: nat) returns (callback: Callback)
      requires Valid() && timer in expired
      modifies this
      ensures Valid() && next == old(next) && callback == old(expired)[timer]
      ensures armed == old(armed) && expired == old(expired) - {timer}
    {
      callback := expired[timer];
      expired := expired - {timer};
    }
  }

  class OperationRefreshState {
    var target: Target
    var active: int
    var dirty: bool
    var timer: Option<nat>

    constructor (target: Target)
      ensures this.target == target && active == 0 && !dirty && timer == None
    {
      this.target, active, dirty, timer := target, 0, false, None;
    }

    function View(): Entry
      reads this
    {
      Entry(target, active, dirty, timer)
    }
  }

  class OperationRefreshScheduler {
    const runtime: TimerRuntime
    var targets: map<GoString, OperationRefreshState>

    constructor (runtime: TimerRuntime)
      requires runtime.Valid() && runtime.armed == map[] && runtime.expired == map[]
      ensures Valid() && this.runtime == runtime
      ensures forall key :: View(key) == INITIAL.cell
    {
      this.runtime := runtime;
      targets := map[];
    }

    /** No two keys share an entry, and a timer an entry holds was armed for the entry's key. */
    ghost predicate Valid()
      reads this, runtime, targets.Values
    {
      && runtime.Valid()
      && (forall k, l | k in targets && l in targets && k != l :: targets[k] != targets[l])
      && (forall k | k in targets && targets[k].timer.Some? && targets[k].timer.value in runtime.armed ::
            runtime.armed[targets[k].timer.value].key == k)
      && (forall k | k in targets && targets[k].timer.Some? :: targets[k].timer.value < runtime.next)
    }

    ghost function View(key: GoString): Cell
      reads this, runtime, targets.Values
    {
      Cell(if key in targets then Some(targets[key].View()) else None,
           ForKey(runtime.armed, key), ForKey(runtime.expired, key))
    }

    method StateForLocked(key: GoString, target: Target) returns (state: OperationRefreshState)
      requires Valid()
      modifies this, targets.Values
      ensures Valid() && key in targets && targets[key] == state
      ensures View(key) == Touch(old(View(key)), target)
      ensures forall k :: k != key ==> View(k) == old(View(k))
      ensures fresh(targets.Values - old(targets.Values))
    {
      if key !in targets {
        state := new OperationRefreshState(target);
        targets := targets[key := state];
      }
      state := targets[key];
      state.target := target;
    }

    /** `state.timer.Stop()` where there is a timer; the field is nil or replaced afterwards. */
    method StopTimer(ghost key: GoString, state: OperationRefreshState)
      requires Valid() && key in targets && targets[key] == state
      modifies runtime, state`timer
      ensures Valid() && runtime.next == old(runtime.next)
      ensures View(key) == Stop(old(View(key))).(entry := Some(old(state.View()).(timer := None)))
      ensures forall k :: k != key ==> View(k) == old(View(k))
    {
      if state.timer.Some? {
        ForKeyRemove(runtime.armed, state.timer.value);
        runtime.Stop(state.timer.value);
        state.timer := None;
      }
    }

    method ArmLocked(key: GoString, state: OperationRefreshState)
      requires Valid() && key in targets && targets[key] == state
      modifies runtime, state
      ensures Valid() && View(key) == Arm(old(View(key)), old(runtime.next))
      ensures forall k :: k != key ==> View(k) == old(View(k))
      ensures runtime.next == old(runtime.next) + 1 && state.active == old(state.active)
    {
      StopTimer(key, state);
      ForKeyAdd(runtime.armed, runtime.next, Callback(key, state.target));
      var timer := runtime.AfterFunc(key, state.target);
      state.timer := Some(timer);
    }

    /** The caller keeps `target` and passes it to `Finish` when its operation ends. */
    method BeginOperation(target: Target)
      requires Valid()
      modifies this, runtime, targets.Values
      ensures Valid()
      ensures Key(target) == "" ==> forall k :: View(k) == old(View(k))
      ensures Key(target) != "" ==> View(Key(target)) == BeginStep(old(View(Key(target))), target)
      ensures forall k :: k != Key(target) ==> View(k) == old(View(k))
    {
      var key := Key(target);
      if key == "" {
        return;
      }
      var state := StateForLocked(key, target);
      state.active := state.active + 1;
      assert View(key).entry == Some(state.View());
      StopTimer(key, state);
    }

    method FinishOperation(target: Target)
      requires Valid()
      modifies this, runtime, targets.Values
      ensures Valid()
      ensures Key(target) == "" ==> forall k :: View(k) == old(View(k))
      ensures Key(target) != "" ==> View(Key(target)) == FinishStep(old(View(Key(target))), old(runtime.next))
      ensures forall k :: k != Key(target) ==> View(k) == old(View(k))
    {
      var key := Key(target);
      if key == "" || key !in targets {
        return;
      }
      var state := targets[key];
      if state.active > 0 {
        state.active := state.active - 1;
      }
      if state.active == 0 && state.dirty {
        ArmLocked(key, state);
      }
    }

    method MarkTargetDirty(target: Target)
      requires Valid()
      modifies this, runtime, targets.Values
      ensures Valid()
      ensures Key(target) == "" ==> forall k :: View(k) == old(View(k))
      ensures Key(target) != "" ==> View(Key(target)) == MarkStep(old(View(Key(target))), target, old(runtime.next))
      ensures forall k :: k != Key(target) ==> View(k) == old(View(k))
    {
      var key := Key(target);
      if key == "" {
        return;
      }
      var state := StateForLocked(key, target);
      state.dirty := true;
      if state.active == 0 {
        ArmLocked(key, state);
      }
    }

    /** A callback that gets the mutex, up to the unlock; `committed` means it goes on to refresh. */
    method FireCallback(timer: nat) returns (callback: Callback, committed: bool)
      requires Valid() && timer in runtime.expired
      modifies this, runtime, targets.Values
      ensures Valid() && callback == old(runtime.expired)[timer]
      ensures timer in old(View(callback.key)).expired && old(View(callback.key)).expired[timer] == callback.target
      ensures View(callback.key) == FireStep(old(View(callback.key)), timer, old(runtime.next))
      ensures Fired(old(View(callback.key)), timer, old(runtime.next), View(callback.key))
      ensures committed == WouldCommit(old(View(callback.key)))
      ensures forall k :: k != callback.key ==> View(k) == old(View(k))
    {
      ForKeyRemove(runtime.expired, timer);
      FireLeaves(View(runtime.expired[timer].key), timer, runtime.next);
      callback := runtime.Take(timer);
      committed := false;
      if callback.key !in targets {
        return;
      }
      var state := targets[callback.key];
      if state.active > 0 {
        ArmLocked(callback.key, state);
        return;
      }
      targets := targets - {callback.key};
      committed := true;
    }

    /** The runtime lets a timer expire; the scheduler's own fields do not change. */
    method ExpireCallback(timer: nat)
      requires Valid() && timer in runtime.armed
      modifies runtime
      ensures Valid()
      ensures var key := old(runtime.armed)[timer].key;
              && timer in old(View(key)).armed
              && View(key) == ExpireStep(old(View(key)), timer)
              && forall k :: k != key ==> View(k) == old(View(k))
    {
      ForKeyRemove(runtime.armed, timer);
      ForKeyAdd(runtime.expired, timer, runtime.armed[timer]);
      runtime.Expire(timer);
    }

    /** The identity of the next timer is fresh for every key, as RefreshProtocol.Enabled asks. */
    lemma NextTimerIsFresh(key: GoString)
      requires Valid()
      ensures FreshIn(View(key), runtime.next)
    {
    }
  }
}
