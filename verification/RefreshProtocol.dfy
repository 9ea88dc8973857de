/** The delayed, merging refresh scheduler as a state machine. A mutex makes each of `begin`,
    `finish`, `markDirty` and the locked part of `fire` one atomic step, and every step works on one
    key, so the scheduler is a family of machines, one a key. A timer callback is armed (Stop removes
    it) or expired: its goroutine runs, waits for the mutex, and Stop comes too late. */
module RefreshProtocol {
  import opened Options
  import opened RefreshTarget

  datatype Entry = Entry(target: Target, active: int, dirty: bool, timer: Option<nat>)

  /** The scheduler's view of one key: the map entry, if there is one, and the callbacks for the key,
      each with the target it captured when it was armed. */
  datatype Cell = Cell(entry: Option<Entry>, armed: map<nat, Target>, expired: map<nat, Target>)

  function Stop(c: Cell): Cell {
    if c.entry.Some? && c.entry.value.timer.Some? then c.(armed := c.armed - {c.entry.value.timer.value}) else c
  }

  /** `id` is the identity of the timer that `time.AfterFunc` returns. */
  function Arm(c: Cell, id: nat): Cell
    requires c.entry.Some?
  {
    var e := c.entry.value;
    Cell(Some(e.(timer := Some(id))), Stop(c).armed[id := e.target], c.expired)
  }

  function Touch(c: Cell, target: Target): Cell {
    c.(entry := Some(if c.entry.Some? then c.entry.value.(target := target) else Entry(target, 0, false, None)))
  }

  function BeginStep(c: Cell, target: Target): Cell {
    var touched := Touch(c, target);
    var e := touched.entry.value;
    Stop(touched).(entry := Some(e.(active := e.active + 1, timer := None)))
  }

  function FinishStep(c: Cell, id: nat): Cell {
    if c.entry.None? then c else
    var e := c.entry.value;
    var left := if e.active > 0 then e.active - 1 else e.active;
    var c1 := c.(entry := Some(e.(active := left)));
    if left == 0 && e.dirty then Arm(c1, id) else c1
  }

  function MarkStep(c: Cell, target: Target, id: nat): Cell {
    var touched := Touch(c, target);
    var c1 := touched.(entry := Some(touched.entry.value.(dirty := true)));
    if c1.entry.value.active == 0 then Arm(c1, id) else c1
  }

  /** The runtime starts a callback's goroutine, which now waits for the mutex. */
  function ExpireStep(c: Cell, t: nat): Cell
    requires t in c.armed
  {
    c.(armed := c.armed - {t}, expired := c.expired[t := c.armed[t]])
  }

  function FireStep(c: Cell, t: nat, id: nat): Cell
    requires t in c.expired
  {
    var c1 := c.(expired := c.expired - {t});
    if c.entry.None? then c1
    else if c.entry.value.active > 0 then Arm(c1, id)
    else c1.(entry := None)
  }

  /** Whether a callback that now gets the mutex deletes the entry and goes on to refresh. */
  predicate WouldCommit(c: Cell) {
    c.entry.Some? && c.entry.value.active <= 0
  }

  predicate Dirty(c: Cell) {
    c.entry.Some? && c.entry.value.dirty
  }

  // ----- runs of one key, with what an observer outside the scheduler counts

  datatype Event = Begin(target: Target) | Finish(id: nat) | MarkDirty(target: Target, id: nat)
                 | Expire(timer: nat) | Fire(timer: nat, id: nat)

  /** `open` counts the operations begun and not finished, `created` the entries created, `commits` the
      refreshes committed, and `last` is the target most recently passed to begin or markDirty. */
  datatype Track = Track(cell: Cell, open: nat, created: nat, commits: nat, last: Option<Target>)

  const INITIAL := Track(Cell(None, map[], map[]), 0, 0, 0, None)

  predicate FreshIn(c: Cell, t: nat) {
    t !in c.armed && t !in c.expired
  }

  /** Each begun operation finishes at most once; only armed timers expire, only expired ones fire. */
  predicate Enabled(w: Track, e: Event) {
    match e
    case Begin(_) => true
    case Finish(id) => w.open > 0 && FreshIn(w.cell, id)
    case MarkDirty(_, id) => FreshIn(w.cell, id)
    case Expire(t) => t in w.cell.armed
    case Fire(t, id) => t in w.cell.expired && FreshIn(w.cell, id)
  }

  function CreatedBy(c: Cell): nat {
    if c.entry.None? then 1 else 0
  }

  function Next(w: Track, e: Event): Track
    requires Enabled(w, e)
  {
    match e
    case Begin(target) =>
      Track(BeginStep(w.cell, target), w.open + 1, w.created + CreatedBy(w.cell), w.commits, Some(target))
    case Finish(id) =>
      w.(cell := FinishStep(w.cell, id), open := w.open - 1)
    case MarkDirty(target, id) =>
      Track(MarkStep(w.cell, target, id), w.open, w.created + CreatedBy(w.cell), w.commits, Some(target))
    case Expire(t) => w.(cell := ExpireStep(w.cell, t))
    case Fire(t, id) =>
      w.(cell := FireStep(w.cell, t, id), commits := w.commits + if WouldCommit(w.cell) then 1 else 0)
  }

  predicate Legal(w: Track, es: seq<Event>)
    decreases |es|
  {
    es == [] || (Enabled(w, es[0]) && Legal(Next(w, es[0]), es[1..]))
  }

  function Run(w: Track, es: seq<Event>): Track
    requires Legal(w, es)
    decreases |es|
  {
    if es == [] then w else Run(Next(w, es[0]), es[1..])
  }

  lemma {:induction false} RunConcat(w: Track, es: seq<Event>, fs: seq<Event>)
    requires Legal(w, es + fs)
    ensures Legal(w, es) && Legal(Run(w, es), fs) && Run(Run(w, es), fs) == Run(w, es + fs)
    decreases |es|
  {
    if es == [] {
      assert es + fs == fs;
    } else {
      assert (es + fs)[1..] == es[1..] + fs;
      RunConcat(Next(w, es[0]), es[1..], fs);
    }
  }

  // ----- what each event leaves, field by field

  /** The callbacks afterwards: without a timer that was stopped, and with one that was armed. */
  ghost predicate Callbacks(before: map<nat, Target>, after: map<nat, Target>, stopped: Option<nat>, armed: Option<(nat, Target)>) {
    && (forall t :: t in after <==> (t in before && Some(t) != stopped) || (armed.Some? && armed.value.0 == t))
    && (forall t :: t in after ==>
          after[t] == if armed.Some? && armed.value.0 == t then armed.value.1 else before[t])
  }

  function TimerOf(c: Cell): Option<nat> {
    if c.entry.Some? then c.entry.value.timer else None
  }

  /** The entry's timer is stopped and a fresh one is armed with the entry's target. */
  ghost predicate Rearmed(c: Cell, d: Cell, id: nat) {
    && d.entry.Some? && d.entry.value.timer == Some(id)
    && Callbacks(c.armed, d.armed, TimerOf(c), Some((id, d.entry.value.target)))
  }

  ghost predicate SameTimers(c: Cell, d: Cell) {
    d.armed == c.armed && TimerOf(d) == TimerOf(c)
  }

  /** One operation more and the new target; the timer is stopped and forgotten, dirt stays. */
  ghost predicate Begun(c: Cell, target: Target, d: Cell) {
    && d.entry.Some? && d.expired == c.expired
    && var e := d.entry.value;
    && e.target == target && e.timer == None
    && e.active == (if c.entry.Some? then c.entry.value.active else 0) + 1
    && (e.dirty <==> Dirty(c))
    && Callbacks(c.armed, d.armed, TimerOf(c), None)
  }

  /** One operation less; the last one of a dirty entry arms it. */
  ghost predicate Finished(c: Cell, id: nat, d: Cell) {
    && d.expired == c.expired
    && (c.entry.None? ==> d == c)
    && (c.entry.Some? ==>
          && d.entry.Some?
          && var e, f := c.entry.value, d.entry.value;
          && f.target == e.target && (f.dirty <==> e.dirty)
          && f.active == (if e.active > 0 then e.active - 1 else e.active)
          && (if e.dirty && f.active == 0 then Rearmed(c, d, id) else SameTimers(c, d)))
  }

  /** Dirt and the new target; an entry without operations is armed. */
  ghost predicate Marked(c: Cell, target: Target, id: nat, d: Cell) {
    && d.entry.Some? && d.expired == c.expired
    && var f := d.entry.value;
    && f.target == target && f.dirty && f.active == (if c.entry.Some? then c.entry.value.active else 0)
    && (if f.active == 0 then Rearmed(c, d, id) else SameTimers(c, d))
  }

  ghost predicate Expired(c: Cell, t: nat, d: Cell) {
    && t in c.armed && d.entry == c.entry
    && Callbacks(c.armed, d.armed, Some(t), None)
    && Callbacks(c.expired, d.expired, None, Some((t, c.armed[t])))
  }

  /** The callback is gone. Without an entry that is all; with open operations the entry stays as it is and
      is armed again; otherwise the entry goes, and the other callbacks stay. */
  ghost predicate Fired(c: Cell, t: nat, id: nat, d: Cell) {
    && Callbacks(c.expired, d.expired, Some(t), None)
    && (c.entry.None? ==> d.entry == None && d.armed == c.armed)
    && (c.entry.Some? && c.entry.value.active > 0 ==>
          && Rearmed(c, d, id)
          && d.entry.value.target == c.entry.value.target && d.entry.value.active == c.entry.value.active
          && (Dirty(d) <==> Dirty(c)))
    && (WouldCommit(c) ==> d.entry == None && d.armed == c.armed)
  }

  ghost predicate Left(c: Cell, e: Event, d: Cell) {
    match e
    case Begin(target) => Begun(c, target, d)
    case Finish(id) => Finished(c, id, d)
    case MarkDirty(target, id) => Marked(c, target, id, d)
    case Expire(t) => Expired(c, t, d)
    case Fire(t, id) => Fired(c, t, id, d)
  }

  lemma BeginLeaves(c: Cell, target: Target)
    ensures Begun(c, target, BeginStep(c, target))
  {
  }

  lemma FinishLeaves(c: Cell, id: nat)
    ensures Finished(c, id, FinishStep(c, id))
  {
  }

  lemma MarkLeaves(c: Cell, target: Target, id: nat)
    ensures Marked(c, target, id, MarkStep(c, target, id))
  {
  }

  lemma ExpireLeaves(c: Cell, t: nat)
    requires t in c.armed
    ensures Expired(c, t, ExpireStep(c, t))
  {
  }

  lemma FireLeaves(c: Cell, t: nat, id: nat)
    requires t in c.expired
    ensures Fired(c, t, id, FireStep(c, t, id))
  {
  }

  /** Every step of every run leaves what its event says, and counts what it did. */
  lemma EachEventLeaves(es: seq<Event>, e: Event)
    requires Legal(INITIAL, es) && Enabled(Run(INITIAL, es), e)
    ensures var w, v := Run(INITIAL, es), Next(Run(INITIAL, es), e);
            && Left(w.cell, e, v.cell)
            && v.open == w.open + (if e.Begin? then 1 else if e.Finish? then -1 else 0)
            && v.commits == w.commits + (if e.Fire? && w.cell.entry.Some? && v.cell.entry.None? then 1 else 0)
            && v.created == w.created + (if w.cell.entry.None? && v.cell.entry.Some? then 1 else 0)
            && v.last == if e.Begin? || e.MarkDirty? then Some(e.target) else w.last
  {
    var c := Run(INITIAL, es).cell;
    match e
    case Begin(target) => BeginLeaves(c, target);
    case Finish(id) => FinishLeaves(c, id);
    case MarkDirty(target, id) => MarkLeaves(c, target, id);
    case Expire(t) => ExpireLeaves(c, t);
    case Fire(t, id) => FireLeaves(c, t, id);
  }

  // ----- the inductive invariant

  predicate Live(c: Cell, t: nat) {
    t in c.armed || t in c.expired
  }

  /** The counter is the number of open operations, an idle dirty entry holds a live timer, a held timer
      is live, and every entry ever created was committed or is still there. */
  predicate Inv(w: Track) {
    && w.cell.armed.Keys !! w.cell.expired.Keys
    && w.open == (if w.cell.entry.Some? then w.cell.entry.value.active else 0)
    && w.created == w.commits + (if w.cell.entry.Some? then 1 else 0)
    && (w.cell.entry.Some? ==>
          var e := w.cell.entry.value;
          && (e.timer.Some? ==> Live(w.cell, e.timer.value))
          && (e.dirty && e.active == 0 ==> e.timer.Some?))
  }

  lemma InvNext(w: Track, e: Event)
    requires Inv(w) && Enabled(w, e)
    ensures Inv(Next(w, e))
  {
  }

  lemma {:induction false} InvRun(w: Track, es: seq<Event>)
    requires Inv(w) && Legal(w, es)
    ensures Inv(Run(w, es))
    decreases |es|
  {
    if es != [] {
      InvNext(w, es[0]);
      InvRun(Next(w, es[0]), es[1..]);
    }
  }

  /** In every reachable state, under any interleaving of operations and stale callbacks: the counter is
      the number of open operations, nothing commits while one is open, and neither guard of `finish`
      (no entry, counter not positive) is ever taken. Commits never outnumber entries created. */
  lemma CounterIsExact(es: seq<Event>)
    requires Legal(INITIAL, es)
    ensures var w := Run(INITIAL, es);
            && w.open == (if w.cell.entry.Some? then w.cell.entry.value.active else 0)
            && (WouldCommit(w.cell) ==> w.open == 0)
            && (w.open > 0 ==> w.cell.entry.Some? && w.cell.entry.value.active > 0)
            && w.commits <= w.created <= w.commits + 1
            && (w.created == w.commits <==> w.cell.entry.None?)
  {
    InvRun(INITIAL, es);
  }

  // ----- no mark is lost

  lemma {:induction false} DirtUntilCommit(w: Track, es: seq<Event>)
    requires Legal(w, es)
    ensures w.commits <= Run(w, es).commits
    ensures Dirty(w.cell) ==> Dirty(Run(w, es).cell) || w.commits < Run(w, es).commits
    decreases |es|
  {
    if es != [] {
      DirtUntilCommit(Next(w, es[0]), es[1..]);
    }
  }

  /** After any markDirty, every later state still holds a dirty entry or a later callback committed; and
      an idle dirty entry always has a live callback of its own, even when Stop came too late. */
  lemma NoMarkIsLost(before: seq<Event>, target: Target, id: nat, later: seq<Event>)
    requires Legal(INITIAL, before + [MarkDirty(target, id)] + later)
    ensures Legal(INITIAL, before + [MarkDirty(target, id)])
    ensures var marked := Run(INITIAL, before + [MarkDirty(target, id)]);
            var w := Run(INITIAL, before + [MarkDirty(target, id)] + later);
            && (Dirty(w.cell) || w.commits > marked.commits)
            && (Dirty(w.cell) && w.open == 0 ==>
                  var timer := w.cell.entry.value.timer; timer.Some? && Live(w.cell, timer.value))
  {
    var upto := before + [MarkDirty(target, id)];
    RunConcat(INITIAL, upto, later);
    RunConcat(INITIAL, before, [MarkDirty(target, id)]);
    var w := Run(INITIAL, before);
    assert Run(w, [MarkDirty(target, id)]) == Next(w, MarkDirty(target, id)) by {
      assert [MarkDirty(target, id)][1..] == [];
    }
    DirtUntilCommit(Run(INITIAL, upto), later);
    InvRun(INITIAL, upto + later);
  }

  // ----- drain: no new operations or marks; finish first, then let the callbacks run out

  predicate DrainLegal(w: Track, es: seq<Event>)
    decreases |es|
  {
    es == [] ||
    (&& Enabled(w, es[0])
     && (es[0].Finish? || ((es[0].Expire? || es[0].Fire?) && w.open == 0))
     && DrainLegal(Next(w, es[0]), es[1..]))
  }

  function Budget(w: Track): nat {
    3 * w.open + 2 * |w.cell.armed| + |w.cell.expired|
  }

  lemma FinishSpends(w: Track, id: nat)
    requires Inv(w) && Enabled(w, Finish(id))
    ensures Budget(Next(w, Finish(id))) < Budget(w)
  {
    var c, c' := w.cell, Next(w, Finish(id)).cell;
    assert c'.armed.Keys <= c.armed.Keys + {id};
    Smaller(c'.armed.Keys, c.armed.Keys + {id});
    assert c'.expired == c.expired;
    assert |c.armed.Keys + {id}| == |c.armed.Keys| + 1;
    KeysCount(c.armed);
    KeysCount(c'.armed);
  }

  lemma ExpireSpends(w: Track, t: nat)
    requires Inv(w) && Enabled(w, Expire(t))
    ensures Budget(Next(w, Expire(t))) < Budget(w)
  {
    var c, c' := w.cell, Next(w, Expire(t)).cell;
    assert c'.armed.Keys == c.armed.Keys - {t} && c'.expired.Keys == c.expired.Keys + {t};
    KeysCount(c.armed);
    KeysCount(c.expired);
    KeysCount(c'.armed);
    KeysCount(c'.expired);
  }

  lemma FireSpends(w: Track, t: nat, id: nat)
    requires Inv(w) && Enabled(w, Fire(t, id)) && w.open == 0
    ensures Budget(Next(w, Fire(t, id))) < Budget(w)
  {
    var c, c' := w.cell, Next(w, Fire(t, id)).cell;
    assert c'.armed == c.armed && c'.expired.Keys == c.expired.Keys - {t};
    KeysCount(c.expired);
    KeysCount(c'.expired);
  }

  lemma KeysCount<T>(m: map<nat, T>)
    ensures |m| == |m.Keys|
  {
  }

  lemma DrainStepSpends(w: Track, e: Event)
    requires Inv(w) && Enabled(w, e)
    requires e.Finish? || ((e.Expire? || e.Fire?) && w.open == 0)
    ensures Budget(Next(w, e)) < Budget(w)
    ensures Next(w, e).created == w.created
  {
    match e
    case Finish(id) => FinishSpends(w, id);
    case Expire(t) => ExpireSpends(w, t);
    case Fire(t, id) => FireSpends(w, t, id);
  }

  lemma Smaller(a: set<nat>, b: set<nat>)
    requires a <= b
    ensures |a| <= |b|
  {
    assert b == a + (b - a);
  }

  lemma {:induction false} DrainRun(w: Track, es: seq<Event>)
    requires Inv(w) && DrainLegal(w, es)
    ensures Legal(w, es) && Inv(Run(w, es))
    ensures |es| + Budget(Run(w, es)) <= Budget(w)
    ensures Run(w, es).created == w.created
    decreases |es|
  {
    if es != [] {
      InvNext(w, es[0]);
      DrainStepSpends(w, es[0]);
      DrainRun(Next(w, es[0]), es[1..]);
    }
  }

  /** Draining is bounded by a budget read off the state; when it can go no further nothing is dirty, no
      callback is left, and the entry that was dirty has been committed exactly once. */
  lemma DrainCommitsOnce(w: Track, es: seq<Event>)
    requires Inv(w) && DrainLegal(w, es)
    ensures |es| <= Budget(w)
    ensures Legal(w, es)
    ensures var end := Run(w, es);
            (forall e :: !DrainLegal(end, [e])) ==>
              && end.open == 0 && end.cell.armed == map[] && end.cell.expired == map[]
              && !Dirty(end.cell)
              && end.commits <= w.commits + 1
              && (Dirty(w.cell) ==> end.commits == w.commits + 1)
  {
    DrainRun(w, es);
    DirtUntilCommit(w, es);
    var end := Run(w, es);
    if forall e :: !DrainLegal(end, [e]) {
      StuckMeansDone(end);
    }
  }

  lemma StuckMeansDone(w: Track)
    requires Inv(w)
    ensures (forall e :: !DrainLegal(w, [e])) ==> w.open == 0 && w.cell.armed == map[] && w.cell.expired == map[]
  {
    var id := FreshTimer(w.cell.armed.Keys + w.cell.expired.Keys);
    if w.open > 0 {
      assert DrainLegal(w, [Finish(id)]);
    } else if w.cell.armed != map[] {
      var t :| t in w.cell.armed;
      assert DrainLegal(w, [Expire(t)]);
    } else if w.cell.expired != map[] {
      var t :| t in w.cell.expired;
      assert DrainLegal(w, [Fire(t, id)]);
    }
  }

  // ----- callbacks that find operations open

  /** The entry, if there is one, holds a live callback. */
  predicate HoldsLive(c: Cell) {
    c.entry.Some? ==> c.entry.value.timer.Some? && Live(c, c.entry.value.timer.value)
  }

  predicate BeginsNothing(es: seq<Event>) {
    forall k :: 0 <= k < |es| ==> !es[k].Begin?
  }

  lemma {:induction false} HeldUntilBegin(w: Track, es: seq<Event>)
    requires Inv(w) && Legal(w, es) && HoldsLive(w.cell) && BeginsNothing(es)
    ensures HoldsLive(Run(w, es).cell)
    decreases |es|
  {
    if es != [] {
      InvNext(w, es[0]);
      assert HoldsLive(Next(w, es[0]).cell);
      HeldUntilBegin(Next(w, es[0]), es[1..]);
    }
  }

  /** In every run, a callback that finds an entry either commits it, with no operation open, or leaves a
      fresh callback that the entry holds. */
  lemma FireCommitsOrRearms(es: seq<Event>, t: nat, id: nat)
    requires Legal(INITIAL, es) && Enabled(Run(INITIAL, es), Fire(t, id)) && Run(INITIAL, es).cell.entry.Some?
    ensures var w := Run(INITIAL, es);
            var v := Next(w, Fire(t, id));
            && HoldsLive(v.cell)
            && (if w.open == 0 then v.commits == w.commits + 1 && v.cell.entry == None
                else && v.commits == w.commits && v.cell.entry.Some? && v.cell.entry.value.timer.Some?
                     && var timer, e := v.cell.entry.value.timer.value, v.cell.entry.value;
                        !Live(w.cell, timer) && timer in v.cell.armed && v.cell.armed[timer] == e.target == w.cell.entry.value.target)
  {
    InvRun(INITIAL, es);
  }

  /** And from then on the entry holds a live callback until another operation begins; so when all runs
      out, no entry is left behind, marked or not. */
  lemma RearmedEntryIsRemoved(es: seq<Event>, t: nat, id: nat, later: seq<Event>, drain: seq<Event>)
    requires Legal(INITIAL, es) && Enabled(Run(INITIAL, es), Fire(t, id)) && Run(INITIAL, es).cell.entry.Some?
    requires Legal(Next(Run(INITIAL, es), Fire(t, id)), later) && BeginsNothing(later)
    requires DrainLegal(Run(Next(Run(INITIAL, es), Fire(t, id)), later), drain)
    ensures var w := Run(Next(Run(INITIAL, es), Fire(t, id)), later);
            && HoldsLive(w.cell) && Legal(w, drain)
            && ((forall e :: !DrainLegal(Run(w, drain), [e])) ==> Run(w, drain).cell == Cell(None, map[], map[]))
  {
    var v := Next(Run(INITIAL, es), Fire(t, id));
    var w := Run(v, later);
    InvRun(INITIAL, es);
    InvNext(Run(INITIAL, es), Fire(t, id));
    FireCommitsOrRearms(es, t, id);
    HeldUntilBegin(v, later);
    InvRun(v, later);
    DrainRun(w, drain);
    DrainBeginsNothing(w, drain);
    HeldUntilBegin(w, drain);
    if forall e :: !DrainLegal(Run(w, drain), [e]) {
      StuckMeansDone(Run(w, drain));
    }
  }

  lemma {:induction false} DrainBeginsNothing(w: Track, es: seq<Event>)
    requires DrainLegal(w, es)
    ensures BeginsNothing(es)
    decreases |es|
  {
    if es != [] {
      DrainBeginsNothing(Next(w, es[0]), es[1..]);
      assert forall k :: 1 <= k < |es| ==> es[k] == es[1..][k - 1];
    }
  }

  /** There is always an identity that no timer of a finite set has. */
  lemma {:induction false} FreshTimer(used: set<nat>) returns (id: nat)
    ensures id !in used
  {
    if used == {} {
      id := 0;
    } else {
      var top := Largest(used);
      id := top + 1;
    }
  }

  lemma {:induction false} Largest(s: set<nat>) returns (top: nat)
    requires s != {}
    ensures top in s && forall t :: t in s ==> t <= top
  {
    var t :| t in s;
    if s == {t} {
      top := t;
    } else {
      var rest := Largest(s - {t});
      top := if t > rest then t else rest;
      assert s == s - {t} + {t};
    }
  }

  // ----- when Stop always wins

  /** Runs in which an expired callback gets the mutex before any other step happens. */
  predicate PromptLegal(w: Track, es: seq<Event>)
    decreases |es|
  {
    es == [] ||
    (&& Enabled(w, es[0])
     && (es[0].Fire? || w.cell.expired == map[])
     && PromptLegal(Next(w, es[0]), es[1..]))
  }

  /** A live callback is the entry's own, the entry is idle and dirty, and both carry the last target. */
  predicate PromptInv(w: Track) {
    && Inv(w)
    && (w.cell.entry.Some? ==> Some(w.cell.entry.value.target) == w.last)
    && (forall t | t in w.cell.armed :: OwnCallback(w, t, w.cell.armed[t]))
    && (forall t | t in w.cell.expired :: OwnCallback(w, t, w.cell.expired[t]))
  }

  predicate OwnCallback(w: Track, t: nat, captured: Target) {
    && w.cell.entry.Some?
    && var e := w.cell.entry.value;
    && e.timer == Some(t) && e.dirty && e.active == 0 && Some(captured) == w.last
  }

  lemma {:induction false} PromptInvRun(w: Track, es: seq<Event>)
    requires PromptInv(w) && PromptLegal(w, es)
    ensures Legal(w, es) && PromptInv(Run(w, es))
    decreases |es|
  {
    if es != [] {
      InvNext(w, es[0]);
      assert PromptInv(Next(w, es[0]));
      PromptInvRun(Next(w, es[0]), es[1..]);
    }
  }

  /** If Stop always wins: at most one live callback; a callback that gets the mutex commits a dirty entry
      with the target last passed to begin or markDirty, so the re-arm branch is unreachable. */
  lemma PromptCallbacksCommitTheLastMark(es: seq<Event>)
    requires PromptLegal(INITIAL, es)
    ensures Legal(INITIAL, es)
    ensures var w := Run(INITIAL, es);
            && (forall t, u :: Live(w.cell, t) && Live(w.cell, u) ==> t == u)
            && (forall t | t in w.cell.expired ::
                  WouldCommit(w.cell) && Dirty(w.cell) && Some(w.cell.expired[t]) == w.last)
  {
    PromptInvRun(INITIAL, es);
  }

  lemma RunCons(w: Track, e: Event, es: seq<Event>)
    requires Enabled(w, e) && Legal(Next(w, e), es)
    ensures Legal(w, [e] + es) && Run(w, [e] + es) == Run(Next(w, e), es)
  {
    assert ([e] + es)[1..] == es;
  }

  // ----- what a callback commits, in every run

  lemma {:induction false} LegalPrefix(w: Track, es: seq<Event>, k: nat)
    requires Legal(w, es) && k <= |es|
    ensures Legal(w, es[..k]) && Legal(Run(w, es[..k]), es[k..]) && Run(Run(w, es[..k]), es[k..]) == Run(w, es)
  {
    assert es == es[..k] + es[k..];
    RunConcat(w, es[..k], es[k..]);
  }

  /** A run without its last event, and that event as a step. */
  lemma LastStep(es: seq<Event>)
    requires Legal(INITIAL, es) && es != []
    ensures var init, e := es[..|es| - 1], es[|es| - 1];
            && Legal(INITIAL, init) && Enabled(Run(INITIAL, init), e)
            && Run(INITIAL, es) == Next(Run(INITIAL, init), e)
  {
    var n := |es| - 1;
    LegalPrefix(INITIAL, es, n);
    assert es[n..] == [es[n]];
    assert [es[n]][1..] == [];
  }

  /** Event `k` is a mark, and nothing has been committed since. */
  predicate MarkedAt(es: seq<Event>, k: nat)
    requires Legal(INITIAL, es)
  {
    && k < |es| && es[k].MarkDirty? && Legal(INITIAL, es[..k])
    && Run(INITIAL, es[..k]).commits == Run(INITIAL, es).commits
  }

  lemma CommitsGrow(es: seq<Event>, k: nat)
    requires Legal(INITIAL, es) && k <= |es|
    ensures Legal(INITIAL, es[..k]) && Run(INITIAL, es[..k]).commits <= Run(INITIAL, es).commits
  {
    LegalPrefix(INITIAL, es, k);
    DirtUntilCommit(Run(INITIAL, es[..k]), es[k..]);
  }

  lemma MarkedAtStep(es: seq<Event>, k: nat)
    requires Legal(INITIAL, es) && es != []
    ensures var init, e := es[..|es| - 1], es[|es| - 1];
            && Legal(INITIAL, init)
            && (Run(INITIAL, es).commits == Run(INITIAL, init).commits ==>
                  (MarkedAt(es, k) <==> (k < |init| && MarkedAt(init, k)) || (k == |init| && e.MarkDirty?)))
            && (Run(INITIAL, es).commits > Run(INITIAL, init).commits ==> !MarkedAt(es, k))
  {
    var init := es[..|es| - 1];
    LastStep(es);
    if k < |es| {
      assert es[..k] == init[..k];
      CommitsGrow(init, k);
      assert k < |init| ==> init[k] == es[k];
      assert k == |init| ==> init[..k] == init;
    }
  }

  /** The entry is dirty exactly when a mark has been made since the last commit. So a callback that gets
      the mutex on an idle entry commits a dirty entry exactly then, escaped from Stop or not. */
  lemma {:induction false} DirtyExactlySinceMark(es: seq<Event>)
    requires Legal(INITIAL, es)
    ensures Dirty(Run(INITIAL, es).cell) <==> exists k: nat :: MarkedAt(es, k)
    decreases |es|
  {
    if es != [] {
      var init, e := es[..|es| - 1], es[|es| - 1];
      LastStep(es);
      DirtyExactlySinceMark(init);
      forall k: nat {
        MarkedAtStep(es, k);
      }
      MarkedAtStep(es, |init|);
      if k: nat :| MarkedAt(init, k) {
        MarkedAtStep(es, k);
      }
    }
  }

  // ----- which target a callback has captured

  predicate Names(e: Event) {
    e.Begin? || e.MarkDirty?
  }

  /** The target named last, if any is. */
  function LatestTarget(es: seq<Event>): Option<Target> {
    if es == [] then None
    else if Names(es[|es| - 1]) then Some(es[|es| - 1].target)
    else LatestTarget(es[..|es| - 1])
  }

  lemma {:induction false} LastIsLatest(es: seq<Event>)
    requires Legal(INITIAL, es)
    ensures Run(INITIAL, es).last == LatestTarget(es)
    ensures Run(INITIAL, es).cell.entry.Some? ==> Some(Run(INITIAL, es).cell.entry.value.target) == LatestTarget(es)
    decreases |es|
  {
    if es != [] {
      LastStep(es);
      LastIsLatest(es[..|es| - 1]);
    }
  }

  lemma {:induction false} LatestOfConcat(es: seq<Event>, fs: seq<Event>)
    ensures LatestTarget(es + fs) == if LatestTarget(fs).Some? then LatestTarget(fs) else LatestTarget(es)
    decreases |fs|
  {
    if fs == [] {
      assert es + fs == es;
    } else {
      assert (es + fs)[..|es + fs| - 1] == es + fs[..|fs| - 1];
      LatestOfConcat(es, fs[..|fs| - 1]);
    }
  }

  function Captured(c: Cell, t: nat): Target
    requires Live(c, t)
  {
    if t in c.armed then c.armed[t] else c.expired[t]
  }

  /** How many events had happened when a live callback was armed for the last time. */
  function ArmedAfter(es: seq<Event>, t: nat): (n: nat)
    ensures n <= |es|
  {
    if es == [] then 0 else
    var init := es[..|es| - 1];
    if Legal(INITIAL, init) && Live(Run(INITIAL, init).cell, t) then ArmedAfter(init, t) else |es|
  }

  /** A callback's target is the one named last before it was armed. */
  lemma {:induction false} CapturedWhenArmed(es: seq<Event>, t: nat)
    requires Legal(INITIAL, es) && Live(Run(INITIAL, es).cell, t)
    ensures Some(Captured(Run(INITIAL, es).cell, t)) == LatestTarget(es[..ArmedAfter(es, t)])
    decreases |es|
  {
    if es != [] {
      var init, e := es[..|es| - 1], es[|es| - 1];
      LastStep(es);
      LastIsLatest(es);
      InvRun(INITIAL, init);
      if Live(Run(INITIAL, init).cell, t) {
        CapturedWhenArmed(init, t);
        assert es[..ArmedAfter(es, t)] == init[..ArmedAfter(init, t)];
      } else {
        assert es[..|es|] == es;
      }
    }
  }

  /** The refresh is of the target named last exactly when the last begin or mark since the arming, if
      there is one, named the captured target; so it is if none since then named another. */
  lemma CapturedIsLastExactly(es: seq<Event>, t: nat)
    requires Legal(INITIAL, es) && Live(Run(INITIAL, es).cell, t)
    ensures var w := Run(INITIAL, es);
            var since := LatestTarget(es[ArmedAfter(es, t)..]);
            && (Some(Captured(w.cell, t)) == w.last <==> since == None || since == Some(Captured(w.cell, t)))
            && ((forall k | ArmedAfter(es, t) <= k < |es| && Names(es[k]) :: es[k].target == Captured(w.cell, t)) ==>
                  Some(Captured(w.cell, t)) == w.last)
  {
    var n := ArmedAfter(es, t);
    LastIsLatest(es);
    CapturedWhenArmed(es, t);
    assert es == es[..n] + es[n..];
    LatestOfConcat(es[..n], es[n..]);
    LatestIsNamed(es[n..]);
  }

  lemma {:induction false} LatestIsNamed(es: seq<Event>)
    ensures LatestTarget(es).Some? ==> exists k :: 0 <= k < |es| && Names(es[k]) && Some(es[k].target) == LatestTarget(es)
  {
    if es != [] && !Names(es[|es| - 1]) {
      LatestIsNamed(es[..|es| - 1]);
    }
  }

  /** Another target may be named in between: what counts is the last one. */
  lemma AnotherTargetMayPass(a: Target, b: Target)
    ensures var es := [MarkDirty(a, 0), Expire(0), Begin(b), Begin(a)];
            && Legal(INITIAL, es) && 0 in Run(INITIAL, es).cell.expired
            && Run(INITIAL, es).cell.expired[0] == a && Run(INITIAL, es).last == Some(a)
  {
    var w1 := Next(INITIAL, MarkDirty(a, 0));
    var w2 := Next(w1, Expire(0));
    var w3 := Next(w2, Begin(b));
    RunCons(w3, Begin(a), []);
    RunCons(w2, Begin(b), [Begin(a)]);
    RunCons(w1, Expire(0), [Begin(b)] + [Begin(a)]);
    RunCons(INITIAL, MarkDirty(a, 0), [Expire(0)] + ([Begin(b)] + [Begin(a)]));
    assert [MarkDirty(a, 0), Expire(0), Begin(b), Begin(a)] == [MarkDirty(a, 0)] + ([Expire(0)] + ([Begin(b)] + [Begin(a)]));
  }

  /** For example, a callback that escaped Stop can commit a target that is not the one named last. */
  lemma EscapedCallbackCommitsOldTarget(a: Target, b: Target)
    requires a != b
    ensures var es := [MarkDirty(a, 0), Expire(0), MarkDirty(b, 1)];
            && Legal(INITIAL, es)
            && var w := Run(INITIAL, es);
               0 in w.cell.expired && WouldCommit(w.cell) && w.cell.expired[0] == a && w.last == Some(b)
  {
    var w1 := Next(INITIAL, MarkDirty(a, 0));
    var w2 := Next(w1, Expire(0));
    RunCons(w2, MarkDirty(b, 1), []);
    RunCons(w1, Expire(0), [MarkDirty(b, 1)]);
    RunCons(INITIAL, MarkDirty(a, 0), [Expire(0)] + [MarkDirty(b, 1)]);
    assert [MarkDirty(a, 0), Expire(0), MarkDirty(b, 1)] == [MarkDirty(a, 0)] + ([Expire(0)] + [MarkDirty(b, 1)]);
  }

  /** For example, a callback that escaped Stop can commit an entry that nobody marked: the first of two
      timers expires unseen, the second commits, and a later operation is finished but makes no mark. */
  lemma EscapedCallbackCommitsCleanEntry(a: Target)
    ensures exists es, t ::
              && Legal(INITIAL, es)
              && var c := Run(INITIAL, es).cell; t in c.expired && WouldCommit(c) && !Dirty(c)
  {
    var w1 := Next(INITIAL, MarkDirty(a, 0));
    var w2 := Next(w1, Expire(0));
    var w3 := Next(w2, MarkDirty(a, 1));
    var w4 := Next(w3, Expire(1));
    var w5 := Next(w4, Fire(1, 2));
    var w6 := Next(w5, Begin(a));
    RunCons(w6, Finish(2), []);
    RunCons(w5, Begin(a), [Finish(2)]);
    RunCons(w4, Fire(1, 2), [Begin(a)] + [Finish(2)]);
    RunCons(w3, Expire(1), [Fire(1, 2)] + ([Begin(a)] + [Finish(2)]));
    var rest := [Expire(1)] + ([Fire(1, 2)] + ([Begin(a)] + [Finish(2)]));
    RunCons(w2, MarkDirty(a, 1), rest);
    RunCons(w1, Expire(0), [MarkDirty(a, 1)] + rest);
    RunCons(INITIAL, MarkDirty(a, 0), [Expire(0)] + ([MarkDirty(a, 1)] + rest));
    var end := Next(w6, Finish(2)).cell;
    assert 0 in end.expired && WouldCommit(end) && !Dirty(end);
  }
}
