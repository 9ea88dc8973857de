/** Health checks of the agents' servers and the notifications about them. The state after any sequence
    of checks and of what users do in the notification centre is determined by the history alone. */
module AgentHealth {
  import opened Options
  import opened Text

  datatype Status = Online | Offline

  datatype Health = Health(status: Status, failures: nat)

  datatype Source = AgentHealth(serverId: GoString) | Elsewhere(kind: GoString, id: GoString)

  datatype Notification = Notification(source: Source, read: bool, dismissed: bool)

  datatype State = State(servers: map<GoString, Health>, notifications: seq<Notification>)

  const DEFAULT_LIMIT := 3

  datatype HealthUpdate = HealthUpdate(previous: Status, status: Status, failures: nat)

  predicate BecameOffline(u: HealthUpdate) {
    u.status == Offline && u.previous != Offline
  }

  // ----- what each operation does

  function AfterCheck(h: Health, online: bool, limit: int): Health {
    if online then Health(Online, 0)
    else Health(if h.failures + 1 >= (if limit <= 0 then DEFAULT_LIMIT else limit) then Offline else h.status, h.failures + 1)
  }

  predicate Unread(n: Notification, source: Source) {
    n.source == source && !n.read && !n.dismissed
  }

  predicate HasUnread(ns: seq<Notification>, source: Source) {
    exists i | 0 <= i < |ns| :: Unread(ns[i], source)
  }

  function CreateIfUnreadMissing(ns: seq<Notification>, source: Source): seq<Notification> {
    if HasUnread(ns, source) then ns else ns + [Notification(source, false, false)]
  }

  /** One statement that marks read, and perhaps dismisses, every notification that is not dismissed:
      those of a source, or all. */
  function MarkEach(ns: seq<Notification>, source: Option<Source>, dismiss: bool): (r: seq<Notification>)
    ensures |r| == |ns| && forall i :: 0 <= i < |ns| ==> r[i] == Marked(ns[i], source, dismiss)
  {
    if ns == [] then [] else [Marked(ns[0], source, dismiss)] + MarkEach(ns[1..], source, dismiss)
  }

  function Marked(n: Notification, source: Option<Source>, dismiss: bool): Notification {
    if !n.dismissed && (source.None? || n.source == source.value) then n.(read := true, dismissed := dismiss) else n
  }

  datatype Event =
    | Ping(serverId: GoString, online: bool, automatic: bool, limit: int)
    | Sync(serverId: GoString, online: bool, manual: bool, limit: int)
    | Post(kind: GoString, id: GoString)
    | MarkRead(index: nat)
    | MarkAllRead
    | ClearAll

  predicate IsCheck(e: Event, serverId: GoString) {
    (e.Ping? || e.Sync?) && e.serverId == serverId
  }

  /** A check made by hand fails at once. */
  function LimitOf(e: Event): int
    requires e.Ping? || e.Sync?
  {
    var byHand := if e.Ping? then !e.automatic else e.manual;
    if !e.online && byHand then 1 else if e.limit <= 0 then DEFAULT_LIMIT else e.limit
  }

  function CheckStep(s: State, e: Event): State
    requires e.Ping? || e.Sync?
  {
    if e.serverId !in s.servers then s else
    var before := s.servers[e.serverId];
    var after := AfterCheck(before, e.online, LimitOf(e));
    var source := AgentHealth(e.serverId);
    var update := HealthUpdate(before.status, after.status, after.failures);
    var again := e.Sync? && e.manual && !e.online;
    State(s.servers[e.serverId := after],
          if after.status == Online && (e.online || e.Ping?) then MarkEach(s.notifications, Some(source), true)
          else if BecameOffline(update) || again then CreateIfUnreadMissing(s.notifications, source)
          else s.notifications)
  }

  function Step(s: State, e: Event): State {
    match e
    case Ping(_, _, _, _) => CheckStep(s, e)
    case Sync(_, _, _, _) => CheckStep(s, e)
    case Post(kind, id) => s.(notifications := s.notifications + [Notification(Elsewhere(kind, id), false, false)])
    case MarkRead(index) =>
      if index < |s.notifications| && !s.notifications[index].dismissed
      then s.(notifications := s.notifications[index := s.notifications[index].(read := true)]) else s
    case MarkAllRead => s.(notifications := MarkEach(s.notifications, None, false))
    case ClearAll => s.(notifications := MarkEach(s.notifications, None, true))
  }

  function Run(s: State, events: seq<Event>): State {
    if events == [] then s else Step(Run(s, events[..|events| - 1]), events[|events| - 1])
  }

  // ----- what the history says

  /** The failed checks since the last successful one. */
  function Streak(events: seq<Event>, serverId: GoString): nat {
    if events == [] then 0 else
    var e, before := events[|events| - 1], Streak(events[..|events| - 1], serverId);
    if !IsCheck(e, serverId) then before else if e.online then 0 else before + 1
  }

  /** Event `i` is a failed check of the current streak. */
  predicate InStreak(events: seq<Event>, serverId: GoString, i: nat) {
    && i < |events| && IsCheck(events[i], serverId) && !events[i].online
    && forall j :: i < j < |events| && IsCheck(events[j], serverId) ==> !events[j].online
  }

  /** Some check of the current streak met its limit. */
  ghost predicate LimitMet(events: seq<Event>, serverId: GoString) {
    exists i: nat :: MetAt(events, serverId, i)
  }

  predicate MetAt(events: seq<Event>, serverId: GoString, i: nat) {
    InStreak(events, serverId, i) && Streak(events[..i + 1], serverId) >= LimitOf(events[i])
  }

  /** How often the server has gone offline. */
  ghost function Episodes(events: seq<Event>, serverId: GoString): nat {
    if events == [] then 0 else
    var init := events[..|events| - 1];
    Episodes(init, serverId) + if LimitMet(events, serverId) && !LimitMet(init, serverId) then 1 else 0
  }

  /** How often a failed manual synchronization of an offline server found no unread notification. */
  ghost function Reminders(s: State, events: seq<Event>, serverId: GoString): nat {
    if events == [] then 0 else
    var init, e := events[..|events| - 1], events[|events| - 1];
    var again := && IsCheck(e, serverId) && e.Sync? && e.manual && !e.online && LimitMet(init, serverId)
                 && !HasUnread(Run(s, init).notifications, AgentHealth(serverId));
    Reminders(s, init, serverId) + if again then 1 else 0
  }

  /** How many notifications there are from a source, read or dismissed ones included. */
  function CountOf(ns: seq<Notification>, source: Source): nat {
    if ns == [] then 0 else CountOf(ns[..|ns| - 1], source) + if ns[|ns| - 1].source == source then 1 else 0
  }

  predicate NoneShown(ns: seq<Notification>, source: Source) {
    forall i | 0 <= i < |ns| :: ns[i].source == source ==> ns[i].dismissed
  }

  /** A registered server starts online; nothing has been posted. */
  predicate Initial(s: State) {
    s.notifications == [] && forall id | id in s.servers :: s.servers[id] == Health(Online, 0)
  }

  // ----- the history determines the state

  lemma InStreakStep(events: seq<Event>, e: Event, serverId: GoString, i: nat)
    ensures InStreak(events + [e], serverId, i) <==>
            (i < |events| && InStreak(events, serverId, i) && !(IsCheck(e, serverId) && e.online))
            || (i == |events| && IsCheck(e, serverId) && !e.online)
  {
    var all := events + [e];
    assert all[|events|] == e;
    assert forall j | 0 <= j < |events| :: all[j] == events[j];
  }

  lemma StreakStep(events: seq<Event>, e: Event, serverId: GoString)
    ensures Streak(events + [e], serverId) ==
            if !IsCheck(e, serverId) then Streak(events, serverId) else if e.online then 0 else Streak(events, serverId) + 1
  {
    assert (events + [e])[..|events|] == events;
  }

  lemma MetAtStep(events: seq<Event>, e: Event, serverId: GoString, i: nat)
    ensures MetAt(events + [e], serverId, i) <==>
            (i < |events| && MetAt(events, serverId, i) && !(IsCheck(e, serverId) && e.online))
            || (i == |events| && IsCheck(e, serverId) && !e.online && Streak(events, serverId) + 1 >= LimitOf(e))
  {
    var all := events + [e];
    InStreakStep(events, e, serverId, i);
    StreakStep(events, e, serverId);
    assert all[..|events| + 1] == all && all[|events|] == e;
    if i < |events| {
      assert all[..i + 1] == events[..i + 1] && all[i] == events[i];
    }
  }

  lemma LimitMetStep(events: seq<Event>, e: Event, serverId: GoString)
    ensures LimitMet(events + [e], serverId) <==>
            if !IsCheck(e, serverId) then LimitMet(events, serverId)
            else !e.online && (LimitMet(events, serverId) || Streak(events, serverId) + 1 >= LimitOf(e))
  {
    MetAtStep(events, e, serverId, |events|);
    if i: nat :| MetAt(events + [e], serverId, i) {
      MetAtStep(events, e, serverId, i);
    }
    if i: nat :| MetAt(events, serverId, i) {
      MetAtStep(events, e, serverId, i);
    }
  }

  /** The failure count is the length of the current streak, and the server is offline exactly when some
      check of that streak met its limit. */
  lemma {:induction false} HealthIsTheStreak(s: State, events: seq<Event>, serverId: GoString)
    requires Initial(s) && serverId in s.servers
    ensures serverId in Run(s, events).servers
    ensures Run(s, events).servers[serverId] ==
            Health(if LimitMet(events, serverId) then Offline else Online, Streak(events, serverId))
    decreases |events|
  {
    if events != [] {
      var init, e := events[..|events| - 1], events[|events| - 1];
      HealthIsTheStreak(s, init, serverId);
      assert events == init + [e];
      StreakStep(init, e, serverId);
      LimitMetStep(init, e, serverId);
    }
  }

  // ----- notifications

  lemma {:induction false} SameSources(ns: seq<Notification>, ms: seq<Notification>, source: Source)
    requires |ns| == |ms| && forall i | 0 <= i < |ns| :: ns[i].source == ms[i].source
    ensures CountOf(ns, source) == CountOf(ms, source)
  {
    if ns != [] {
      SameSources(ns[..|ns| - 1], ms[..|ms| - 1], source);
    }
  }

  lemma CountOfOneMore(ns: seq<Notification>, n: Notification, source: Source)
    ensures CountOf(ns + [n], source) == CountOf(ns, source) + if n.source == source then 1 else 0
  {
    assert (ns + [n])[..|ns|] == ns;
  }

  /** Shown notifications disappear but do not come back by themselves. */
  lemma StepKeepsNoneShown(s: State, e: Event, serverId: GoString)
    requires NoneShown(s.notifications, AgentHealth(serverId)) && !IsCheck(e, serverId)
    ensures NoneShown(Step(s, e).notifications, AgentHealth(serverId))
    ensures CountOf(Step(s, e).notifications, AgentHealth(serverId)) == CountOf(s.notifications, AgentHealth(serverId))
  {
    OtherEventsKeepCount(s, e, serverId);
  }

  lemma OtherEventsKeepCount(s: State, e: Event, serverId: GoString)
    requires !IsCheck(e, serverId)
    ensures CountOf(Step(s, e).notifications, AgentHealth(serverId)) == CountOf(s.notifications, AgentHealth(serverId))
  {
    var ns, source := s.notifications, AgentHealth(serverId);
    match e
    case Post(kind, id) => CountOfOneMore(ns, Notification(Elsewhere(kind, id), false, false), source);
    case MarkRead(index) => if index < |ns| { SameSources(ns, ns[index := ns[index].(read := true)], source); }
    case MarkAllRead => SameSources(ns, MarkEach(ns, None, false), source);
    case ClearAll => SameSources(ns, MarkEach(ns, None, true), source);
    case Ping(other, _, _, _) => CheckKeepsOthersCount(ns, other, source);
    case Sync(other, _, _, _) => CheckKeepsOthersCount(ns, other, source);
  }

  lemma CheckKeepsOthersCount(ns: seq<Notification>, other: GoString, source: Source)
    requires source != AgentHealth(other)
    ensures CountOf(MarkEach(ns, Some(AgentHealth(other)), true), source) == CountOf(ns, source)
    ensures CountOf(CreateIfUnreadMissing(ns, AgentHealth(other)), source) == CountOf(ns, source)
  {
    SameSources(ns, MarkEach(ns, Some(AgentHealth(other)), true), source);
    CountOfOneMore(ns, Notification(AgentHealth(other), false, false), source);
  }

  /** A server that is not offline has no notification that is not dismissed. Each time a server goes
      offline creates one; the others come from failed manual synchronizations. */
  lemma {:induction false} NotificationsMatchEpisodes(s: State, events: seq<Event>, serverId: GoString)
    requires Initial(s) && serverId in s.servers
    ensures var ns := Run(s, events).notifications;
            && (!LimitMet(events, serverId) ==> NoneShown(ns, AgentHealth(serverId)))
            && CountOf(ns, AgentHealth(serverId)) == Episodes(events, serverId) + Reminders(s, events, serverId)
    decreases |events|
  {
    if events != [] {
      var init, e := events[..|events| - 1], events[|events| - 1];
      assert events == init + [e];
      NotificationsMatchEpisodes(s, init, serverId);
      HealthIsTheStreak(s, init, serverId);
      HealthIsTheStreak(s, events, serverId);
      LimitMetStep(init, e, serverId);
      var before := Run(s, init);
      if IsCheck(e, serverId) {
        CheckNotifies(before, e, LimitMet(init, serverId), LimitMet(events, serverId));
      } else {
        OtherEventsKeepCount(before, e, serverId);
        if !LimitMet(init, serverId) {
          StepKeepsNoneShown(before, e, serverId);
        }
      }
    }
  }

  lemma DismissLeavesNone(ns: seq<Notification>, source: Source)
    ensures NoneShown(MarkEach(ns, Some(source), true), source)
    ensures CountOf(MarkEach(ns, Some(source), true), source) == CountOf(ns, source)
  {
    SameSources(ns, MarkEach(ns, Some(source), true), source);
  }

  lemma CreateAddsOne(ns: seq<Notification>, source: Source)
    ensures CountOf(CreateIfUnreadMissing(ns, source), source) == CountOf(ns, source) + if HasUnread(ns, source) then 0 else 1
    ensures NoneShown(ns, source) ==> !HasUnread(ns, source)
  {
    CountOfOneMore(ns, Notification(source, false, false), source);
  }

  /** What a check of a server does to its notifications. */
  lemma CheckNotifies(s: State, e: Event, wasOffline: bool, isOffline: bool)
    requires (e.Ping? || e.Sync?) && e.serverId in s.servers
    requires s.servers[e.serverId].status == if wasOffline then Offline else Online
    requires Step(s, e).servers[e.serverId].status == if isOffline then Offline else Online
    requires !wasOffline ==> NoneShown(s.notifications, AgentHealth(e.serverId))
    ensures var source := AgentHealth(e.serverId);
            var ns := Step(s, e).notifications;
            && (!isOffline ==> NoneShown(ns, source))
            && CountOf(ns, source) == CountOf(s.notifications, source)
               + (if isOffline && !wasOffline then 1 else 0)
               + (if e.Sync? && e.manual && !e.online && wasOffline && !HasUnread(s.notifications, source) then 1 else 0)
  {
    if isOffline {
      CreateAddsOne(s.notifications, AgentHealth(e.serverId));
    } else {
      DismissLeavesNone(s.notifications, AgentHealth(e.serverId));
    }
  }

  predicate NoManualSyncFails(events: seq<Event>, serverId: GoString) {
    forall i | 0 <= i < |events| :: IsCheck(events[i], serverId) && events[i].Sync? && events[i].manual ==> events[i].online
  }

  lemma {:induction false} NoReminders(s: State, events: seq<Event>, serverId: GoString)
    requires NoManualSyncFails(events, serverId)
    ensures Reminders(s, events, serverId) == 0
    decreases |events|
  {
    if events != [] {
      NoReminders(s, events[..|events| - 1], serverId);
    }
  }

  /** Without failed manual synchronizations, each offline episode creates exactly one notification. */
  lemma OneNotificationPerEpisode(s: State, events: seq<Event>, serverId: GoString)
    requires Initial(s) && serverId in s.servers && NoManualSyncFails(events, serverId)
    ensures CountOf(Run(s, events).notifications, AgentHealth(serverId)) == Episodes(events, serverId)
  {
    NotificationsMatchEpisodes(s, events, serverId);
    NoReminders(s, events, serverId);
  }

  lemma HistoryStep(s: State, events: seq<Event>, e: Event, serverId: GoString)
    ensures Run(s, events + [e]) == Step(Run(s, events), e)
    ensures Episodes(events + [e], serverId) ==
            Episodes(events, serverId) + if LimitMet(events + [e], serverId) && !LimitMet(events, serverId) then 1 else 0
  {
    assert (events + [e])[..|events|] == events;
  }

  lemma ReadKeepsEpisode(s: State, events: seq<Event>, serverId: GoString)
    requires Initial(s) && serverId in s.servers && LimitMet(events, serverId)
    ensures var read := events + [MarkAllRead];
            && LimitMet(read, serverId) && Episodes(read, serverId) == Episodes(events, serverId)
            && serverId in Run(s, read).servers && Run(s, read).servers[serverId].status == Offline
            && !HasUnread(Run(s, read).notifications, AgentHealth(serverId))
            && CountOf(Run(s, read).notifications, AgentHealth(serverId)) == CountOf(Run(s, events).notifications, AgentHealth(serverId))
  {
    HistoryStep(s, events, MarkAllRead, serverId);
    LimitMetStep(events, MarkAllRead, serverId);
    OtherEventsKeepCount(Run(s, events), MarkAllRead, serverId);
    HealthIsTheStreak(s, events + [MarkAllRead], serverId);
  }

  /** Whenever a server is offline: if everything is read and a manual synchronization fails again, one
      more notification is created in the same episode. */
  lemma ManualFailureReminds(s: State, events: seq<Event>, serverId: GoString, limit: int)
    requires Initial(s) && serverId in s.servers && LimitMet(events, serverId)
    ensures var later := events + [MarkAllRead] + [Sync(serverId, false, true, limit)];
            && Episodes(later, serverId) == Episodes(events, serverId)
            && CountOf(Run(s, later).notifications, AgentHealth(serverId)) ==
                 CountOf(Run(s, events).notifications, AgentHealth(serverId)) + 1
  {
    var read, fail := events + [MarkAllRead], Sync(serverId, false, true, limit);
    ReadKeepsEpisode(s, events, serverId);
    HistoryStep(s, read, fail, serverId);
    CheckNotifiesAgain(Run(s, read), fail);
  }

  lemma CheckNotifiesAgain(s: State, e: Event)
    requires e.Sync? && e.manual && !e.online && e.serverId in s.servers && s.servers[e.serverId].status == Offline
    requires !HasUnread(s.notifications, AgentHealth(e.serverId))
    ensures CountOf(Step(s, e).notifications, AgentHealth(e.serverId)) == CountOf(s.notifications, AgentHealth(e.serverId)) + 1
  {
    CreateAddsOne(s.notifications, AgentHealth(e.serverId));
  }

  /** For example after one failed manual synchronization: two notifications, one episode. */
  lemma ReminderExample(serverId: GoString)
    ensures var s := State(map[serverId := Health(Online, 0)], []);
            var fail := Sync(serverId, false, true, 3);
            var events := [] + [fail] + [MarkAllRead] + [fail];
            && Initial(s) && Episodes(events, serverId) == 1
            && CountOf(Run(s, events).notifications, AgentHealth(serverId)) == 2
  {
    var s := State(map[serverId := Health(Online, 0)], []);
    var fail := Sync(serverId, false, true, 3);
    LimitMetStep([], fail, serverId);
    HistoryStep(s, [], fail, serverId);
    OneNotificationAfter(serverId);
    ManualFailureReminds(s, [] + [fail], serverId, 3);
  }

  lemma OneNotificationAfter(serverId: GoString)
    ensures var s := State(map[serverId := Health(Online, 0)], []);
            CountOf(Step(s, Sync(serverId, false, true, 3)).notifications, AgentHealth(serverId)) == 1
  {
    CreateAddsOne([], AgentHealth(serverId));
  }

  // ----- event by event

  predicate Shown(n: Notification) {
    !n.dismissed
  }

  /** A shown notification is read afterwards; another one is as it was. */
  predicate ReadNow(before: Notification, after: Notification) {
    if Shown(before) then after.source == before.source && after.read && Shown(after) else after == before
  }

  predicate DismissedNow(before: Notification, after: Notification) {
    if Shown(before) then after.source == before.source && after.read && !Shown(after) else after == before
  }

  /** Each notification with what has become of it. */
  predicate Each(before: seq<Notification>, after: seq<Notification>, becomes: (Notification, Notification) -> bool) {
    |after| == |before| && forall i | 0 <= i < |before| :: becomes(before[i], after[i])
  }

  /** What users do. Marking all as read leaves shown what is shown, and reads it; after a clear nothing is
      shown; marking one reads that one; and none of it touches a server's health. */
  lemma UsersSee(s: State, e: Event)
    requires !e.Ping? && !e.Sync?
    ensures Step(s, e).servers == s.servers
    ensures var before, after := s.notifications, Step(s, e).notifications;
            match e
            case MarkAllRead => Each(before, after, ReadNow)
            case ClearAll => Each(before, after, DismissedNow) && forall i | 0 <= i < |after| :: !Shown(after[i])
            case MarkRead(index) =>
              && |after| == |before|
              && (forall i | 0 <= i < |before| :: if i == index then ReadNow(before[i], after[i]) else after[i] == before[i])
            case Post(kind, id) =>
              && |after| == |before| + 1 && after[..|before|] == before
              && after[|before|].source == Elsewhere(kind, id) && !after[|before|].read && Shown(after[|before|])
  {
  }

  /** Some notification of the source is shown and not read. */
  predicate Waiting(ns: seq<Notification>, source: Source) {
    exists i :: 0 <= i < |ns| && ns[i].source == source && Shown(ns[i]) && !ns[i].read
  }

  /** One more notification, unless one waits already; it is not read yet. */
  predicate Waits(before: seq<Notification>, after: seq<Notification>, source: Source) {
    if Waiting(before, source) then after == before
    else |after| == |before| + 1 && after[..|before|] == before && after[|before|].source == source
         && !after[|before|].read && Shown(after[|before|])
  }

  predicate DismissedOf(before: seq<Notification>, after: seq<Notification>, source: Source) {
    |after| == |before| && forall i | 0 <= i < |before| ::
      if before[i].source == source then DismissedNow(before[i], after[i]) else after[i] == before[i]
  }

  /** What a check of a server shows: its own notifications go when it is online, and one waits when it
      has just gone offline or a manual synchronization fails. No others are touched. */
  lemma CheckShows(s: State, e: Event)
    requires e.Ping? || e.Sync?
    ensures var before, after := s.notifications, Step(s, e).notifications;
            if e.serverId !in s.servers then Step(s, e) == s
            else
              var was, now, source := s.servers[e.serverId].status, Step(s, e).servers[e.serverId].status, AgentHealth(e.serverId);
              && (e.online ==> now.Online?)
              && (if now.Online? then (if e.online || e.Ping? then DismissedOf(before, after, source) else after == before)
                  else if was.Online? || (e.Sync? && e.manual) then Waits(before, after, source)
                  else after == before)
  {
    assert e.serverId in s.servers ==> (HasUnread(s.notifications, AgentHealth(e.serverId)) <==> Waiting(s.notifications, AgentHealth(e.serverId)));
  }

  /** The same automatic check, failing again and again. */
  function Failing(serverId: GoString, limit: int, n: nat): (events: seq<Event>)
    ensures |events| == n
  {
    if n == 0 then [] else Failing(serverId, limit, n - 1) + [Ping(serverId, false, true, limit)]
  }

  lemma OneMoreFailure(s: State, serverId: GoString, limit: int, n: nat)
    requires serverId in s.servers && s.servers[serverId] == Health(if n >= (if limit <= 0 then 3 else limit) then Offline else Online, n)
    ensures var after := Step(s, Ping(serverId, false, true, limit)).servers;
            serverId in after && after[serverId] == Health(if n + 1 >= (if limit <= 0 then 3 else limit) then Offline else Online, n + 1)
  {
  }

  lemma FailingOneMore(s: State, serverId: GoString, limit: int, n: nat)
    ensures Run(s, Failing(serverId, limit, n + 1)) == Step(Run(s, Failing(serverId, limit, n)), Ping(serverId, false, true, limit))
  {
    var events := Failing(serverId, limit, n + 1);
    assert events[..n] == Failing(serverId, limit, n) && events[n] == Ping(serverId, false, true, limit);
  }

  /** A server goes offline with as many failures in a row as the limit says, by default three. */
  lemma {:induction false} OfflineAtTheLimit(s: State, serverId: GoString, limit: int, n: nat)
    requires Initial(s) && serverId in s.servers
    ensures var after := Run(s, Failing(serverId, limit, n)).servers;
            serverId in after && after[serverId] == Health(if n >= (if limit <= 0 then 3 else limit) then Offline else Online, n)
  {
    if n > 0 {
      OfflineAtTheLimit(s, serverId, limit, n - 1);
      FailingOneMore(s, serverId, limit, n - 1);
      OneMoreFailure(Run(s, Failing(serverId, limit, n - 1)), serverId, limit, n - 1);
    }
  }

  /** One failure of a check made by hand is enough. */
  lemma OfflineByHand(s: State, serverId: GoString, limit: int)
    requires serverId in s.servers
    ensures Step(s, Ping(serverId, false, false, limit)).servers[serverId].status == Offline
    ensures Step(s, Sync(serverId, false, true, limit)).servers[serverId].status == Offline
  {
  }

  // ----- the operations on the store

  class HealthStore {
    var servers: map<GoString, Health>
    var notifications: seq<Notification>

    constructor (servers: map<GoString, Health>)
      ensures View() == State(servers, [])
    {
      this.servers, notifications := servers, [];
    }

    function View(): State
      reads this
    {
      State(servers, notifications)
    }

    /** For a server that is registered. */
    method UpdateServerHealth(serverId: GoString, online: bool, limit: int) returns (u: HealthUpdate)
      requires serverId in servers
      modifies this
      ensures var after := AfterCheck(old(servers)[serverId], online, limit);
              && u == HealthUpdate(old(servers)[serverId].status, after.status, after.failures)
              && servers == old(servers)[serverId := after]
      ensures notifications == old(notifications)
    {
      var before := servers[serverId];
      var effective := if limit <= 0 then DEFAULT_LIMIT else limit;
      if online {
        servers := servers[serverId := Health(Online, 0)];
        return HealthUpdate(before.status, Online, 0);
      }
      var status := before.status;
      if before.failures + 1 >= effective {
        status := Offline;
      }
      servers := servers[serverId := Health(status, before.failures + 1)];
      u := HealthUpdate(before.status, status, before.failures + 1);
    }

    method CreateNotificationIfUnreadMissing(source: Source) returns (created: bool)
      modifies this
      ensures created <==> !HasUnread(old(notifications), source)
      ensures notifications == CreateIfUnreadMissing(old(notifications), source) && servers == old(servers)
    {
      for i := 0 to |notifications|
        invariant notifications == old(notifications) && servers == old(servers)
        invariant forall j :: 0 <= j < i ==> !Unread(notifications[j], source)
      {
        if Unread(notifications[i], source) {
          return false;
        }
      }
      notifications := notifications + [Notification(source, false, false)];
      created := true;
    }

    method DismissNotificationsBySource(source: Source)
      modifies this
      ensures notifications == MarkEach(old(notifications), Some(source), true) && servers == old(servers)
    {
      notifications := MarkEach(notifications, Some(source), true);
    }

    method MarkNotificationRead(index: nat) returns (found: bool)
      modifies this
      ensures View() == Step(old(View()), MarkRead(index))
      ensures found <==> index < |old(notifications)| && !old(notifications)[index].dismissed
    {
      found := index < |notifications| && !notifications[index].dismissed;
      if found {
        notifications := notifications[index := notifications[index].(read := true)];
      }
    }

    method MarkAllNotificationsRead()
      modifies this
      ensures View() == Step(old(View()), MarkAllRead)
    {
      notifications := MarkEach(notifications, None, false);
    }

    method DismissNotifications()
      modifies this
      ensures View() == Step(old(View()), ClearAll)
    {
      notifications := MarkEach(notifications, None, true);
    }

    /** The ping of `serverAction`, and with `automatic` also the periodic `checkServerHealth`. */
    method PingServer(serverId: GoString, online: bool, automatic: bool, configuredLimit: int)
      modifies this
      ensures View() == Step(old(View()), Ping(serverId, online, automatic, configuredLimit))
    {
      if serverId !in servers {
        return;
      }
      var limit := configuredLimit;
      if !online && !automatic {
        limit := 1;
      }
      var u := UpdateServerHealth(serverId, online, limit);
      if u.status == Online {
        DismissNotificationsBySource(AgentHealth(serverId));
      } else if BecameOffline(u) {
        var created := CreateNotificationIfUnreadMissing(AgentHealth(serverId));
      }
    }

    /** The health part of a server synchronization. */
    method SyncHealth(serverId: GoString, online: bool, manual: bool, configuredLimit: int)
      modifies this
      ensures View() == Step(old(View()), Sync(serverId, online, manual, configuredLimit))
    {
      if serverId !in servers {
        return;
      }
      if !online {
        var u := UpdateServerHealth(serverId, false, if manual then 1 else configuredLimit);
        if BecameOffline(u) || manual {
          var created := CreateNotificationIfUnreadMissing(AgentHealth(serverId));
        }
        return;
      }
      var u := UpdateServerHealth(serverId, true, configuredLimit);
      DismissNotificationsBySource(AgentHealth(serverId));
    }
  }
}
