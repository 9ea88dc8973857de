/** Runs of the whole scheduler: every step belongs to one key, so what holds of each key's machine
    holds of the scheduler, whatever the interleaving. */
module RefreshRuns {
  import opened Text
  import opened RefreshTarget
  import opened RefreshProtocol

  datatype Step = Step(key: GoString, event: Event)

  type World = map<GoString, Track>

  function TrackOf(w: World, key: GoString): Track {
    if key in w then w[key] else INITIAL
  }

  /** A begin or mark works on its target's key; a target without a key never reaches the map. */
  predicate StepEnabled(w: World, s: Step) {
    && s.key != ""
    && Enabled(TrackOf(w, s.key), s.event)
    && (s.event.Begin? || s.event.MarkDirty? ==> Key(s.event.target) == s.key)
  }

  function StepNext(w: World, s: Step): World
    requires StepEnabled(w, s)
  {
    w[s.key := Next(TrackOf(w, s.key), s.event)]
  }

  predicate StepsLegal(w: World, steps: seq<Step>)
    decreases |steps|
  {
    steps == [] || (StepEnabled(w, steps[0]) && StepsLegal(StepNext(w, steps[0]), steps[1..]))
  }

  function StepsRun(w: World, steps: seq<Step>): World
    requires StepsLegal(w, steps)
    decreases |steps|
  {
    if steps == [] then w else StepsRun(StepNext(w, steps[0]), steps[1..])
  }

  /** The events of one key, in order. */
  function Only(steps: seq<Step>, key: GoString): seq<Event> {
    if steps == [] then []
    else if steps[0].key == key then [steps[0].event] + Only(steps[1..], key)
    else Only(steps[1..], key)
  }

  lemma {:induction false} KeysRunAlone(w: World, steps: seq<Step>, key: GoString)
    requires StepsLegal(w, steps)
    ensures Legal(TrackOf(w, key), Only(steps, key))
    ensures TrackOf(StepsRun(w, steps), key) == Run(TrackOf(w, key), Only(steps, key))
    decreases |steps|
  {
    if steps != [] {
      KeysRunAlone(StepNext(w, steps[0]), steps[1..], key);
      if steps[0].key == key {
        RunCons(TrackOf(w, key), steps[0].event, Only(steps[1..], key));
      }
    }
  }

  /** Every target the cell holds, or would refresh, passes the test. */
  predicate AllPass(c: Cell, test: Target -> bool) {
    && (c.entry.Some? ==> test(c.entry.value.target))
    && (forall t | t in c.armed :: test(c.armed[t]))
    && (forall t | t in c.expired :: test(c.expired[t]))
  }

  lemma AllPassNext(w: Track, e: Event, test: Target -> bool)
    requires Enabled(w, e) && AllPass(w.cell, test)
    requires e.Begin? || e.MarkDirty? ==> test(e.target)
    ensures AllPass(Next(w, e).cell, test)
  {
  }

  lemma {:induction false} TargetsKeepTheirKey(w: World, steps: seq<Step>, key: GoString)
    requires StepsLegal(w, steps) && AllPass(TrackOf(w, key).cell, t => Key(t) == key)
    ensures AllPass(TrackOf(StepsRun(w, steps), key).cell, t => Key(t) == key)
    decreases |steps|
  {
    if steps != [] {
      var test := (t: Target) => Key(t) == key;
      if steps[0].key == key {
        AllPassNext(TrackOf(w, key), steps[0].event, test);
      }
      assert AllPass(TrackOf(StepNext(w, steps[0]), key).cell, test);
      TargetsKeepTheirKey(StepNext(w, steps[0]), steps[1..], key);
    }
  }

  /** Safety of the whole scheduler from its initial state: for every key the counter is exact, a callback
      that would commit finds no open operation on the key and refreshes a target with that key, an idle
      dirty entry has a live callback of its own, and commits never outnumber entries created. */
  lemma SchedulerIsSafe(steps: seq<Step>, key: GoString)
    requires StepsLegal(map[], steps)
    ensures var w := TrackOf(StepsRun(map[], steps), key);
            && w.open == (if w.cell.entry.Some? then w.cell.entry.value.active else 0)
            && (WouldCommit(w.cell) ==> w.open == 0)
            && (forall t | t in w.cell.expired :: Key(w.cell.expired[t]) == key)
            && (Dirty(w.cell) && w.open == 0 ==>
                  w.cell.entry.value.timer.Some? && Live(w.cell, w.cell.entry.value.timer.value))
            && w.commits <= w.created
  {
    KeysRunAlone(map[], steps, key);
    InvRun(INITIAL, Only(steps, key));
    TargetsKeepTheirKey(map[], steps, key);
  }

  predicate StepsDrain(w: World, steps: seq<Step>)
    decreases |steps|
  {
    steps == [] ||
    (&& StepEnabled(w, steps[0])
     && DrainLegal(TrackOf(w, steps[0].key), [steps[0].event])
     && StepsDrain(StepNext(w, steps[0]), steps[1..]))
  }

  function TotalBudget(w: World, keys: seq<GoString>): nat {
    if keys == [] then 0 else Budget(TrackOf(w, keys[0])) + TotalBudget(w, keys[1..])
  }

  lemma {:induction false} StepSpendsTotal(w: World, s: Step, keys: seq<GoString>)
    requires StepEnabled(w, s) && Budget(Next(TrackOf(w, s.key), s.event)) < Budget(TrackOf(w, s.key))
    ensures TotalBudget(StepNext(w, s), keys) <= TotalBudget(w, keys)
    ensures s.key in keys ==> TotalBudget(StepNext(w, s), keys) < TotalBudget(w, keys)
  {
    if keys != [] {
      StepSpendsTotal(w, s, keys[1..]);
    }
  }

  /** However the drains of different keys interleave, the whole scheduler stops within its budget. */
  lemma {:induction false} SchedulerDrains(w: World, steps: seq<Step>, keys: seq<GoString>)
    requires forall key | key in w :: Inv(w[key])
    requires StepsDrain(w, steps)
    requires forall i | 0 <= i < |steps| :: steps[i].key in keys
    ensures |steps| <= TotalBudget(w, keys)
    decreases |steps|
  {
    if steps != [] {
      var s := steps[0];
      var track := TrackOf(w, s.key);
      assert Inv(track);
      InvNext(track, s.event);
      DrainStepSpends(track, s.event);
      StepSpendsTotal(w, s, keys);
      assert steps[0].key in keys;
      assert forall i | 0 <= i < |steps[1..]| :: steps[1..][i] == steps[i + 1];
      SchedulerDrains(StepNext(w, s), steps[1..], keys);
    }
  }

  lemma DrainCons(w: Track, e: Event, es: seq<Event>)
    requires DrainLegal(w, [e]) && DrainLegal(Next(w, e), es)
    ensures DrainLegal(w, [e] + es)
  {
    assert ([e] + es)[1..] == es;
  }

  lemma {:induction false} KeysDrainAlone(w: World, steps: seq<Step>, key: GoString)
    requires StepsDrain(w, steps)
    ensures StepsLegal(w, steps) && DrainLegal(TrackOf(w, key), Only(steps, key))
    decreases |steps|
  {
    if steps != [] {
      KeysDrainAlone(StepNext(w, steps[0]), steps[1..], key);
      if steps[0].key == key {
        DrainCons(TrackOf(w, key), steps[0].event, Only(steps[1..], key));
      }
    }
  }

  /** Draining the whole scheduler from any reachable state: once a key can do no more, it holds nothing
      dirty and no callback, and what was dirty has been committed exactly once. */
  lemma SchedulerDrainsClean(before: seq<Step>, steps: seq<Step>, key: GoString)
    requires StepsLegal(map[], before) && StepsDrain(StepsRun(map[], before), steps)
    ensures StepsLegal(StepsRun(map[], before), steps)
    ensures var start := TrackOf(StepsRun(map[], before), key);
            var end := TrackOf(StepsRun(StepsRun(map[], before), steps), key);
            (forall e :: !DrainLegal(end, [e])) ==>
              && end.open == 0 && end.cell.armed == map[] && end.cell.expired == map[] && !Dirty(end.cell)
              && end.commits <= start.commits + 1
              && (Dirty(start.cell) ==> end.commits == start.commits + 1)
  {
    var w := StepsRun(map[], before);
    KeysRunAlone(map[], before, key);
    InvRun(INITIAL, Only(before, key));
    KeysDrainAlone(w, steps, key);
    KeysRunAlone(w, steps, key);
    DrainCommitsOnce(TrackOf(w, key), Only(steps, key));
  }
}
