/** The stored DHCP snapshot: scopes by server and external ID, and each scope's exclusions, leases and
    reservations. A snapshot of one scope, or a list of a server's scopes, replaces what is stored. */
module DhcpSnapshot {
  import opened Options
  import opened Text
  import opened SnapshotTables

  // ----- what an agent reports

  datatype Scope = Scope(id: GoString, name: GoString, description: GoString, subnet: GoString, gateway: GoString,
                         startRange: GoString, endRange: GoString, hours: int, seconds: int, state: GoString,
                         externalId: GoString)

  datatype Exclusion = Exclusion(startIp: GoString, endIp: GoString, externalId: GoString)

  datatype Lease = Lease(id: GoString, ip: GoString, mac: GoString, hostname: GoString, state: GoString,
                         expiresAt: GoString, externalId: GoString)

  datatype Reservation = Reservation(id: GoString, ip: GoString, mac: GoString, name: GoString,
                                     description: GoString, externalId: GoString)

  // ----- what is stored

  datatype ScopeData = ScopeData(name: GoString, description: GoString, subnet: GoString, gateway: GoString,
                                 startRange: GoString, endRange: GoString, hours: int, seconds: int, state: GoString)

  datatype Expiry = ZeroTime | Instant(t: int)

  datatype LeaseData = LeaseData(mac: GoString, hostname: GoString, state: GoString, expires: Expiry, externalId: GoString)

  datatype ReservationData = ReservationData(mac: GoString, name: GoString, description: GoString, externalId: GoString)

  type Range = (GoString, GoString)

  datatype Db = Db(scopes: map<nat, Row<GoString, GoString, ScopeData>>,
                   exclusions: map<nat, Row<nat, Range, GoString>>,
                   leases: map<nat, Row<nat, GoString, LeaseData>>,
                   reservations: map<nat, Row<nat, GoString, ReservationData>>,
                   next: nat)

  /** Fresh IDs, the unique indexes, and the foreign keys to the scopes. */
  ghost predicate DbValid(db: Db) {
    && Valid(db.scopes, db.next) && Valid(db.exclusions, db.next) && Valid(db.leases, db.next) && Valid(db.reservations, db.next)
    && (forall i | i in db.exclusions :: db.exclusions[i].owner in db.scopes)
    && (forall i | i in db.leases :: db.leases[i].owner in db.scopes)
    && (forall i | i in db.reservations :: db.reservations[i].owner in db.scopes)
  }

  // ----- from reports to rows

  function FirstNonEmpty(values: seq<GoString>): (r: GoString)
    ensures Trimmed(r, IsSpace)
    ensures r == "" <==> forall i :: 0 <= i < |values| ==> TrimSpace(values[i]) == ""
  {
    if values == [] then ""
    else if TrimSpace(values[0]) != "" then TrimSpace(values[0])
    else FirstNonEmpty(values[1..])
  }

  /** The lease duration as `normalizeScopeLeaseDuration` leaves it: -1 seconds stands for no limit. */
  function LeaseDuration(hours: int, seconds: int): (d: (int, int))
    ensures seconds == -1 ==> d == (0, -1)
    ensures seconds != -1 ==> d.0 > 0 && d.1 > 0
    ensures seconds > 0 ==> d.1 == seconds
    ensures seconds != -1 && hours > 0 ==> d.0 == hours
    ensures seconds != -1 && seconds <= 0 ==> d.1 == d.0 * 3600
    ensures hours <= 0 && seconds > 0 ==> (d.0 - 1) * 3600 < seconds <= d.0 * 3600
    ensures hours <= 0 && seconds <= 0 && seconds != -1 ==> d.0 == 24
  {
    if seconds == -1 then (0, -1)
    else
      var s := if seconds <= 0 && hours > 0 then hours * 3600 else seconds;
      var h := if hours <= 0 && s > 0 then (s + 3599) / 3600 else hours;
      var h' := if h <= 0 then 24 else h;
      (h', if s <= 0 then h' * 3600 else s)
  }

  /** The steps of `normalizeScopeLeaseDuration`, which the backend's handlers repeat word for word. */
  method NormalizeLeaseDuration(givenHours: int, givenSeconds: int) returns (hours: int, seconds: int)
    ensures (hours, seconds) == LeaseDuration(givenHours, givenSeconds)
  {
    hours, seconds := givenHours, givenSeconds;
    if seconds == -1 {
      hours := 0;
      return;
    }
    if seconds <= 0 && hours > 0 {
      seconds := hours * 3600;
    }
    if hours <= 0 && seconds > 0 {
      hours := (seconds + 3599) / 3600;
    }
    if hours <= 0 {
      hours := 24;
    }
    if seconds <= 0 {
      seconds := hours * 3600;
    }
  }

  lemma LeaseDurationIsSettled(hours: int, seconds: int)
    ensures var d := LeaseDuration(hours, seconds); LeaseDuration(d.0, d.1) == d
    ensures LeaseDuration(hours, seconds) == (hours, seconds) <==> (hours > 0 && seconds > 0) || (hours == 0 && seconds == -1)
  {
  }

  function ScopeItem(s: Scope): Item<GoString, ScopeData> {
    var key := FirstNonEmpty([s.externalId, s.id, s.subnet, s.name]);
    var (hours, seconds) := LeaseDuration(s.hours, s.seconds);
    Item(if key == "" then None else Some(key),
         ScopeData(s.name, s.description, s.subnet, s.gateway, s.startRange, s.endRange, hours, seconds,
                   if s.state == "" then "Active" else s.state))
  }

  function ExclusionItem(x: Exclusion): Item<Range, GoString> {
    var fallback := if x.externalId != "" then x.externalId else x.startIp + "-" + x.endIp;
    Item(Some((x.startIp, x.endIp)), FirstNonEmpty([x.externalId, fallback]))
  }

  /** An expiry text that does not parse becomes the present. */
  function LeaseItem(l: Lease, parse: GoString -> Option<int>, now: int): Item<GoString, LeaseData> {
    var expires := if l.expiresAt == "" then ZeroTime
                   else if parse(l.expiresAt).Some? then Instant(parse(l.expiresAt).value)
                   else Instant(now);
    var state := FirstNonEmpty([l.state, "Active"]);
    Item(Some(l.ip), LeaseData(l.mac, l.hostname, state, expires, FirstNonEmpty([l.externalId, l.id, l.ip])))
  }

  function ReservationItem(r: Reservation): Item<GoString, ReservationData> {
    Item(Some(r.ip), ReservationData(r.mac, r.name, r.description, FirstNonEmpty([r.externalId, r.id, r.ip])))
  }

  datatype Snapshot = Snapshot(scope: Item<GoString, ScopeData>, exclusions: seq<Item<Range, GoString>>,
                               leases: seq<Item<GoString, LeaseData>>, reservations: seq<Item<GoString, ReservationData>>)

  predicate Keyed(snap: Snapshot) {
    && (forall i | 0 <= i < |snap.exclusions| :: snap.exclusions[i].key.Some?)
    && (forall i | 0 <= i < |snap.leases| :: snap.leases[i].key.Some?)
    && (forall i | 0 <= i < |snap.reservations| :: snap.reservations[i].key.Some?)
  }

  function SnapshotOf(scope: Scope, exclusions: seq<Exclusion>, leases: seq<Lease>, reservations: seq<Reservation>,
                      parse: GoString -> Option<int>, now: int): (snap: Snapshot)
    ensures Keyed(snap)
  {
    Snapshot(ScopeItem(scope),
             seq(|exclusions|, i requires 0 <= i < |exclusions| => ExclusionItem(exclusions[i])),
             seq(|leases|, i requires 0 <= i < |leases| => LeaseItem(leases[i], parse, now)),
             seq(|reservations|, i requires 0 <= i < |reservations| => ReservationItem(reservations[i])))
  }

  // ----- replacing one scope's snapshot

  ghost function ScopeId(db: Db, serverId: GoString, snap: Snapshot): nat {
    TargetId(db.scopes, serverId, snap.scope, db.next)
  }

  /** The IDs left after the exclusions, and after the leases. */
  ghost function LeaseStart(db: Db, id: nat, snap: Snapshot): nat {
    UpsertAll(db.exclusions, id, snap.exclusions, db.next + 1).next
  }

  ghost function ReservationStart(db: Db, id: nat, snap: Snapshot): nat {
    UpsertAll(db.leases, id, snap.leases, LeaseStart(db, id, snap)).next
  }

  ghost function SnapshotStep(db: Db, serverId: GoString, snap: Snapshot): Db {
    var id := ScopeId(db, serverId, snap);
    Db(UpsertRow(db.scopes, serverId, snap.scope, db.next),
       Replace(db.exclusions, id, snap.exclusions, db.next + 1),
       Replace(db.leases, id, snap.leases, LeaseStart(db, id, snap)),
       Replace(db.reservations, id, snap.reservations, ReservationStart(db, id, snap)),
       UpsertAll(db.reservations, id, snap.reservations, ReservationStart(db, id, snap)).next)
  }

  lemma MoreIds<O, K, D>(t: map<nat, Row<O, K, D>>, next: nat, later: nat)
    requires Valid(t, next) && next <= later
    ensures Valid(t, later)
  {
  }

  /** Each table is valid when its turn comes. */
  lemma ValidInTurn(db: Db, id: nat, snap: Snapshot)
    requires DbValid(db)
    ensures Valid(db.exclusions, db.next + 1)
    ensures Valid(db.leases, LeaseStart(db, id, snap)) && db.next < LeaseStart(db, id, snap)
    ensures Valid(db.reservations, ReservationStart(db, id, snap)) && LeaseStart(db, id, snap) <= ReservationStart(db, id, snap)
    ensures ReservationStart(db, id, snap) <= UpsertAll(db.reservations, id, snap.reservations, ReservationStart(db, id, snap)).next
  {
    MoreIds(db.exclusions, db.next, db.next + 1);
    UpsertAllIsValid(db.exclusions, id, snap.exclusions, db.next + 1);
    MoreIds(db.leases, db.next, LeaseStart(db, id, snap));
    UpsertAllIsValid(db.leases, id, snap.leases, LeaseStart(db, id, snap));
    MoreIds(db.reservations, db.next, ReservationStart(db, id, snap));
    UpsertAllIsValid(db.reservations, id, snap.reservations, ReservationStart(db, id, snap));
  }

  /** Owners of a table's rows after a replacement: as before, or the scope itself. */
  lemma ReplaceOwners<K, D>(t: map<nat, Row<nat, K, D>>, owner: nat, items: seq<Item<K, D>>, next: nat, known: set<nat>)
    requires Valid(t, next) && owner in known && forall i | i in t :: t[i].owner in known
    ensures forall i | i in Replace(t, owner, items, next) :: Replace(t, owner, items, next)[i].owner in known
  {
    forall i | i in Replace(t, owner, items, next) ensures Replace(t, owner, items, next)[i].owner in known {
      ReplaceElsewhere(t, owner, items, next, i);
    }
  }

  lemma ReplaceIsValid<O, K, D>(t: map<nat, Row<O, K, D>>, owner: O, items: seq<Item<K, D>>, next: nat)
    requires Valid(t, next)
    ensures Valid(Replace(t, owner, items, next), UpsertAll(t, owner, items, next).next)
  {
    UpsertAllIsValid(t, owner, items, next);
  }

  lemma SnapshotStepIsValid(db: Db, serverId: GoString, snap: Snapshot)
    requires DbValid(db)
    ensures DbValid(SnapshotStep(db, serverId, snap))
  {
    var id, after := ScopeId(db, serverId, snap), SnapshotStep(db, serverId, snap);
    var n1, n2, n3 := db.next + 1, LeaseStart(db, id, snap), ReservationStart(db, id, snap);
    ValidInTurn(db, id, snap);
    UpsertRowIsValid(db.scopes, serverId, snap.scope, db.next);
    MoreIds(after.scopes, db.next + 1, after.next);
    ReplaceIsValid(db.exclusions, id, snap.exclusions, n1);
    ReplaceIsValid(db.leases, id, snap.leases, n2);
    ReplaceIsValid(db.reservations, id, snap.reservations, n3);
    MoreIds(after.exclusions, n2, after.next);
    MoreIds(after.leases, n3, after.next);
    ReplaceOwners(db.exclusions, id, snap.exclusions, n1, after.scopes.Keys);
    ReplaceOwners(db.leases, id, snap.leases, n2, after.scopes.Keys);
    ReplaceOwners(db.reservations, id, snap.reservations, n3, after.scopes.Keys);
  }

  /** The contents of the scope afterwards, key by key, with the row IDs kept. */
  lemma SnapshotContents(db: Db, serverId: GoString, snap: Snapshot, range: Range, ip: GoString)
    requires DbValid(db)
    ensures var id := ScopeId(db, serverId, snap);
            var after := SnapshotStep(db, serverId, snap);
            && At(after.exclusions, id, range) == LastWins(snap.exclusions, range)
            && At(after.leases, id, ip) == LastWins(snap.leases, ip)
            && At(after.reservations, id, ip) == LastWins(snap.reservations, ip)
            && (At(after.exclusions, id, range).Some? && Find(db.exclusions, id, Some(range)).Some? ==>
                  Find(after.exclusions, id, Some(range)) == Find(db.exclusions, id, Some(range)))
            && (At(after.leases, id, ip).Some? && Find(db.leases, id, Some(ip)).Some? ==>
                  Find(after.leases, id, Some(ip)) == Find(db.leases, id, Some(ip)))
            && (At(after.reservations, id, ip).Some? && Find(db.reservations, id, Some(ip)).Some? ==>
                  Find(after.reservations, id, Some(ip)) == Find(db.reservations, id, Some(ip)))
  {
    var id := ScopeId(db, serverId, snap);
    var n1, n2, n3 := db.next + 1, LeaseStart(db, id, snap), ReservationStart(db, id, snap);
    ValidInTurn(db, id, snap);
    ReplaceIsLastWins(db.exclusions, id, snap.exclusions, n1, id, range);
    ReplaceIsLastWins(db.leases, id, snap.leases, n2, id, ip);
    ReplaceIsLastWins(db.reservations, id, snap.reservations, n3, id, ip);
  }

  /** A row of one table that belongs to another owner is there with the same ID in the other. */
  ghost predicate SameElsewhere<O, K, D>(t: map<nat, Row<O, K, D>>, u: map<nat, Row<O, K, D>>, owner: O, i: nat) {
    && (i in t && t[i].owner != owner ==> i in u && u[i] == t[i])
    && (i in u && u[i].owner != owner ==> i in t && t[i] == u[i])
  }

  /** Rows of other scopes are the same rows: none goes, changes or is added. */
  lemma OtherScopesUntouched(db: Db, serverId: GoString, snap: Snapshot, i: nat)
    requires DbValid(db)
    ensures var id := ScopeId(db, serverId, snap);
            var after := SnapshotStep(db, serverId, snap);
            && (i != id ==> (i in db.scopes <==> i in after.scopes) && (i in db.scopes ==> after.scopes[i] == db.scopes[i]))
            && SameElsewhere(db.exclusions, after.exclusions, id, i)
            && SameElsewhere(db.leases, after.leases, id, i)
            && SameElsewhere(db.reservations, after.reservations, id, i)
  {
    var id := ScopeId(db, serverId, snap);
    ValidInTurn(db, id, snap);
    ReplacedElsewhere(db.exclusions, id, snap.exclusions, db.next + 1, i);
    ReplacedElsewhere(db.leases, id, snap.leases, LeaseStart(db, id, snap), i);
    ReplacedElsewhere(db.reservations, id, snap.reservations, ReservationStart(db, id, snap), i);
  }

  lemma ReplacedElsewhere<O, K, D>(t: map<nat, Row<O, K, D>>, owner: O, items: seq<Item<K, D>>, next: nat, i: nat)
    requires Valid(t, next)
    ensures SameElsewhere(t, Replace(t, owner, items, next), owner, i)
  {
    ReplaceElsewhere(t, owner, items, next, i);
  }

  // ----- re-applying a snapshot

  /** Equal tables; only the supply of fresh IDs may differ. */
  predicate SameTables(a: Db, b: Db) {
    a.scopes == b.scopes && a.exclusions == b.exclusions && a.leases == b.leases && a.reservations == b.reservations
  }

  ghost predicate IsCurrent(db: Db, serverId: GoString, snap: Snapshot) {
    var id := ScopeId(db, serverId, snap);
    && id in db.scopes && db.scopes[id] == Row(serverId, snap.scope.key, snap.scope.data)
    && Current(db.exclusions, id, snap.exclusions)
    && Current(db.leases, id, snap.leases)
    && Current(db.reservations, id, snap.reservations)
  }

  lemma SnapshotBecomesCurrent(db: Db, serverId: GoString, snap: Snapshot)
    requires DbValid(db) && Keyed(snap) && snap.scope.key.Some?
    ensures IsCurrent(SnapshotStep(db, serverId, snap), serverId, snap)
    ensures ScopeId(SnapshotStep(db, serverId, snap), serverId, snap) == ScopeId(db, serverId, snap)
  {
    var id, after := ScopeId(db, serverId, snap), SnapshotStep(db, serverId, snap);
    var n1, n2, n3 := db.next + 1, LeaseStart(db, id, snap), ReservationStart(db, id, snap);
    ValidInTurn(db, id, snap);
    UpsertRowFind(db.scopes, serverId, snap.scope, db.next, serverId, snap.scope.key.value);
    assert Find(after.scopes, serverId, snap.scope.key) == Some(id);
    ReplaceMakesCurrent(db.exclusions, id, snap.exclusions, n1);
    ReplaceMakesCurrent(db.leases, id, snap.leases, n2);
    ReplaceMakesCurrent(db.reservations, id, snap.reservations, n3);
  }

  lemma CurrentStays(db: Db, serverId: GoString, snap: Snapshot)
    requires DbValid(db) && IsCurrent(db, serverId, snap)
    ensures SameTables(SnapshotStep(db, serverId, snap), db)
  {
    var id := ScopeId(db, serverId, snap);
    var n1, n2, n3 := db.next + 1, LeaseStart(db, id, snap), ReservationStart(db, id, snap);
    ValidInTurn(db, id, snap);
    ReplaceCurrent(db.exclusions, id, snap.exclusions, n1);
    ReplaceCurrent(db.leases, id, snap.leases, n2);
    ReplaceCurrent(db.reservations, id, snap.reservations, n3);
    assert db.scopes[id := db.scopes[id]] == db.scopes;
  }

  /** Applying a snapshot again changes no row and no ID. */
  lemma ReapplyChangesNothing(db: Db, serverId: GoString, snap: Snapshot)
    requires DbValid(db) && Keyed(snap) && snap.scope.key.Some?
    ensures SameTables(SnapshotStep(SnapshotStep(db, serverId, snap), serverId, snap), SnapshotStep(db, serverId, snap))
  {
    SnapshotStepIsValid(db, serverId, snap);
    SnapshotBecomesCurrent(db, serverId, snap);
    CurrentStays(SnapshotStep(db, serverId, snap), serverId, snap);
  }

  /** Without any text for an external ID the scope is inserted anew each time. */
  lemma BlankScopeIsInserted(db: Db, serverId: GoString, snap: Snapshot)
    requires DbValid(db) && snap.scope.key.None?
    ensures var after := SnapshotStep(db, serverId, snap);
            && ScopeId(db, serverId, snap) == db.next && db.next !in db.scopes
            && after.scopes == db.scopes[db.next := Row(serverId, None, snap.scope.data)]
  {
  }

  /** Applying a snapshot again changes nothing exactly when its scope has a key. */
  lemma ReapplyExactly(db: Db, serverId: GoString, snap: Snapshot)
    requires DbValid(db) && Keyed(snap)
    ensures SameTables(SnapshotStep(SnapshotStep(db, serverId, snap), serverId, snap), SnapshotStep(db, serverId, snap)) <==>
            snap.scope.key.Some?
  {
    if snap.scope.key.Some? {
      ReapplyChangesNothing(db, serverId, snap);
    } else {
      SnapshotStepIsValid(db, serverId, snap);
      BlankScopeIsInserted(SnapshotStep(db, serverId, snap), serverId, snap);
    }
  }

  /** A scope has a key unless its external ID, ID, subnet and name are all blank. */
  lemma KeyOfScope(s: Scope)
    ensures ScopeItem(s).key.None? <==>
            TrimSpace(s.externalId) == "" && TrimSpace(s.id) == "" && TrimSpace(s.subnet) == "" && TrimSpace(s.name) == ""
  {
    var texts := [s.externalId, s.id, s.subnet, s.name];
    assert TrimSpace(texts[0]) == TrimSpace(s.externalId) && TrimSpace(texts[1]) == TrimSpace(s.id);
    assert TrimSpace(texts[2]) == TrimSpace(s.subnet) && TrimSpace(texts[3]) == TrimSpace(s.name);
  }

  /** For example this scope, into any tables: the second application inserts another row. */
  lemma KeylessExample(db: Db, serverId: GoString, parse: GoString -> Option<int>, now: int)
    requires DbValid(db)
    ensures var snap := SnapshotOf(Scope("", "", "a scope", "", "", "", "", 1, 3600, "", ""), [], [], [], parse, now);
            var once := SnapshotStep(db, serverId, snap);
            snap.scope.key.None? && !SameTables(SnapshotStep(once, serverId, snap), once)
  {
    var scope := Scope("", "", "a scope", "", "", "", "", 1, 3600, "", "");
    assert TrimSpace("") == "";
    KeyOfScope(scope);
    ReapplyExactly(db, serverId, SnapshotOf(scope, [], [], [], parse, now));
  }

  /** The clock matters only to leases whose expiry does not parse. */
  lemma SnapshotIgnoresTheClock(scope: Scope, exclusions: seq<Exclusion>, leases: seq<Lease>, reservations: seq<Reservation>,
                                parse: GoString -> Option<int>, now: int, later: int)
    ensures SnapshotOf(scope, exclusions, leases, reservations, parse, now) ==
            SnapshotOf(scope, exclusions, leases, reservations, parse, later) <==>
            now == later || forall i | 0 <= i < |leases| :: leases[i].expiresAt == "" || parse(leases[i].expiresAt).Some?
  {
    var a := SnapshotOf(scope, exclusions, leases, reservations, parse, now);
    var b := SnapshotOf(scope, exclusions, leases, reservations, parse, later);
    if now != later {
      if i :| 0 <= i < |leases| && leases[i].expiresAt != "" && parse(leases[i].expiresAt).None? {
        assert a.leases[i] != b.leases[i];
      } else {
        assert a.leases == b.leases;
      }
    }
  }

  // ----- the view by natural keys

  datatype Question = AboutScope | AboutExclusion(range: Range) | AboutLease(ip: GoString) | AboutReservation(ip: GoString)

  datatype Answer = ScopeIs(scope: ScopeData) | ExclusionIs(externalId: GoString) | LeaseIs(lease: LeaseData)
                  | ReservationIs(reservation: ReservationData)

  ghost function Child<K, D>(t: map<nat, Row<nat, K, D>>, owner: nat, key: K, wrap: D -> Answer): Option<Answer> {
    var d := At(t, owner, key);
    if d.Some? then Some(wrap(d.value)) else None
  }

  /** What the rows of a scope say. */
  ghost function RowsSay(db: Db, id: nat, q: Question): Option<Answer> {
    match q
    case AboutScope => None
    case AboutExclusion(range) => Child(db.exclusions, id, range, (x: GoString) => ExclusionIs(x))
    case AboutLease(ip) => Child(db.leases, id, ip, (l: LeaseData) => LeaseIs(l))
    case AboutReservation(ip) => Child(db.reservations, id, ip, (r: ReservationData) => ReservationIs(r))
  }

  /** What the snapshot says about a scope, by names and addresses rather than row IDs. */
  ghost function Says(db: Db, serverId: GoString, externalId: GoString, q: Question): Option<Answer> {
    var found := Find(db.scopes, serverId, Some(externalId));
    if found.None? then None
    else if q.AboutScope? then Some(ScopeIs(db.scopes[found.value].data))
    else RowsSay(db, found.value, q)
  }

  ghost function Item0<K, D>(items: seq<Item<K, D>>, key: K, wrap: D -> Answer): Option<Answer> {
    var d := LastWins(items, key);
    if d.Some? then Some(wrap(d.value)) else None
  }

  ghost function SnapshotSays(snap: Snapshot, q: Question): Option<Answer> {
    match q
    case AboutScope => Some(ScopeIs(snap.scope.data))
    case AboutExclusion(range) => Item0(snap.exclusions, range, (x: GoString) => ExclusionIs(x))
    case AboutLease(ip) => Item0(snap.leases, ip, (l: LeaseData) => LeaseIs(l))
    case AboutReservation(ip) => Item0(snap.reservations, ip, (r: ReservationData) => ReservationIs(r))
  }

  /** What the rows of a scope say after a snapshot step. */
  lemma SnapshotSetsRows(db: Db, serverId: GoString, snap: Snapshot, id: nat, q: Question)
    requires DbValid(db) && !q.AboutScope?
    ensures RowsSay(SnapshotStep(db, serverId, snap), id, q) ==
            if id == ScopeId(db, serverId, snap) then SnapshotSays(snap, q) else RowsSay(db, id, q)
  {
    var scope := ScopeId(db, serverId, snap);
    ValidInTurn(db, scope, snap);
    match q
    case AboutExclusion(range) => ReplacedAt(db.exclusions, scope, snap.exclusions, db.next + 1, id, range);
    case AboutLease(ip) => ReplacedAt(db.leases, scope, snap.leases, LeaseStart(db, scope, snap), id, ip);
    case AboutReservation(ip) => ReplacedAt(db.reservations, scope, snap.reservations, ReservationStart(db, scope, snap), id, ip);
  }

  lemma ReplacedAt<O, K, D>(t: map<nat, Row<O, K, D>>, owner: O, items: seq<Item<K, D>>, next: nat, o: O, key: K)
    requires Valid(t, next)
    ensures At(Replace(t, owner, items, next), o, key) == if o == owner then LastWins(items, key) else At(t, o, key)
  {
    ReplaceIsLastWins(t, owner, items, next, o, key);
  }

  /** A snapshot step sets the view of its scope and leaves every other scope's. */
  lemma SnapshotSetsView(db: Db, serverId: GoString, snap: Snapshot, otherServer: GoString, other: GoString, q: Question)
    requires DbValid(db) && snap.scope.key.Some?
    ensures Says(SnapshotStep(db, serverId, snap), otherServer, other, q) ==
            if otherServer == serverId && snap.scope.key == Some(other) then SnapshotSays(snap, q) else Says(db, otherServer, other, q)
  {
    UpsertRowFind(db.scopes, serverId, snap.scope, db.next, otherServer, other);
    var found := Find(SnapshotStep(db, serverId, snap).scopes, otherServer, Some(other));
    if found.Some? && !q.AboutScope? {
      SnapshotSetsRows(db, serverId, snap, found.value, q);
    }
  }

  /** Snapshots of different scopes commute on the view. */
  lemma SnapshotsCommute(db: Db, server1: GoString, snap1: Snapshot, server2: GoString, snap2: Snapshot,
                         server: GoString, externalId: GoString, q: Question)
    requires DbValid(db) && snap1.scope.key.Some? && snap2.scope.key.Some?
    requires (server1, snap1.scope.key) != (server2, snap2.scope.key)
    ensures Says(SnapshotStep(SnapshotStep(db, server1, snap1), server2, snap2), server, externalId, q) ==
            Says(SnapshotStep(SnapshotStep(db, server2, snap2), server1, snap1), server, externalId, q)
  {
    SnapshotStepIsValid(db, server1, snap1);
    SnapshotStepIsValid(db, server2, snap2);
    SnapshotSetsView(db, server1, snap1, server, externalId, q);
    SnapshotSetsView(db, server2, snap2, server, externalId, q);
    SnapshotSetsView(SnapshotStep(db, server1, snap1), server2, snap2, server, externalId, q);
    SnapshotSetsView(SnapshotStep(db, server2, snap2), server1, snap1, server, externalId, q);
  }

  // ----- replacing a server's scopes

  /** Deleting scopes deletes what belongs to them. */
  function Cascade<K, D>(t: map<nat, Row<nat, K, D>>, scopes: set<nat>): map<nat, Row<nat, K, D>> {
    map i | i in t && t[i].owner in scopes :: t[i]
  }

  function DeleteScopes(db: Db, scopes: map<nat, Row<GoString, GoString, ScopeData>>, next: nat): Db {
    Db(scopes, Cascade(db.exclusions, scopes.Keys), Cascade(db.leases, scopes.Keys), Cascade(db.reservations, scopes.Keys), next)
  }

  ghost function ScopesStep(db: Db, serverId: GoString, items: seq<Item<GoString, ScopeData>>): Db {
    var u := UpsertAll(db.scopes, serverId, items, db.next);
    DeleteScopes(db, DeleteStale(u.table, serverId, u.keep), u.next)
  }

  lemma ScopesStepIsValid(db: Db, serverId: GoString, items: seq<Item<GoString, ScopeData>>)
    requires DbValid(db)
    ensures DbValid(ScopesStep(db, serverId, items))
  {
    UpsertAllIsValid(db.scopes, serverId, items, db.next);
  }

  /** Afterwards the server has exactly the scopes listed, the last of each external ID; those that it
      had keep their row IDs; and other servers' scopes are as before. */
  lemma ScopesAreTheList(db: Db, serverId: GoString, items: seq<Item<GoString, ScopeData>>, other: GoString, externalId: GoString)
    requires DbValid(db)
    ensures var after := ScopesStep(db, serverId, items);
            && At(after.scopes, serverId, externalId) == LastWins(items, externalId)
            && (LastWins(items, externalId).Some? && Find(db.scopes, serverId, Some(externalId)).Some? ==>
                  Find(after.scopes, serverId, Some(externalId)) == Find(db.scopes, serverId, Some(externalId)))
            && (other != serverId ==>
                  && Find(after.scopes, other, Some(externalId)) == Find(db.scopes, other, Some(externalId))
                  && At(after.scopes, other, externalId) == At(db.scopes, other, externalId))
  {
    ReplaceIsLastWins(db.scopes, serverId, items, db.next, other, externalId);
  }

  /** Row by row: other servers' scopes, with an external ID or without, are the same rows, and a scope
      of this server without an external ID is a new one. */
  lemma OtherServersScopesUntouched(db: Db, serverId: GoString, items: seq<Item<GoString, ScopeData>>, i: nat)
    requires DbValid(db)
    ensures var after := ScopesStep(db, serverId, items);
            && SameElsewhere(db.scopes, after.scopes, serverId, i)
            && (i in after.scopes && after.scopes[i].owner == serverId && after.scopes[i].key.None? ==> i >= db.next)
  {
    ReplaceElsewhere(db.scopes, serverId, items, db.next, i);
  }

  /** A listed scope is in its old row, or in a row no scope had. */
  lemma ListedScope(db: Db, serverId: GoString, items: seq<Item<GoString, ScopeData>>, externalId: GoString)
    requires DbValid(db) && LastWins(items, externalId).Some?
    ensures var found := Find(ScopesStep(db, serverId, items).scopes, serverId, Some(externalId));
            var known := Find(db.scopes, serverId, Some(externalId));
            found.Some? && (if known.Some? then found == known else found.value !in db.scopes)
  {
    ReplaceIsLastWins(db.scopes, serverId, items, db.next, serverId, externalId);
    var found := Find(ScopesStep(db, serverId, items).scopes, serverId, Some(externalId));
    UpsertAllElsewhere(db.scopes, serverId, items, db.next, found.value);
    if found.value in db.scopes {
      assert Has(db.scopes, serverId, externalId, found.value);
    }
  }

  /** A scope's rows stay with its row ID. */
  lemma ChildrenStay(db: Db, serverId: GoString, items: seq<Item<GoString, ScopeData>>, id: nat, range: Range, ip: GoString)
    requires DbValid(db) && id in ScopesStep(db, serverId, items).scopes
    ensures var after := ScopesStep(db, serverId, items);
            && At(after.exclusions, id, range) == At(db.exclusions, id, range)
            && At(after.leases, id, ip) == At(db.leases, id, ip)
            && At(after.reservations, id, ip) == At(db.reservations, id, ip)
    ensures id !in db.scopes ==> At(db.exclusions, id, range) == None && At(db.leases, id, ip) == None && At(db.reservations, id, ip) == None
  {
    var scopes := ScopesStep(db, serverId, items).scopes.Keys;
    CascadeAt(db.exclusions, db.next, scopes, id, range);
    CascadeAt(db.leases, db.next, scopes, id, ip);
    CascadeAt(db.reservations, db.next, scopes, id, ip);
  }

  /** What another server's scope says stays. A scope that is not listed says nothing. A listed one says
      the listed attributes, and of its rows what it said before: nothing, if it is new. */
  lemma ScopesSetView(db: Db, serverId: GoString, items: seq<Item<GoString, ScopeData>>, server: GoString, externalId: GoString, q: Question)
    requires DbValid(db)
    ensures Says(ScopesStep(db, serverId, items), server, externalId, q) ==
            if server != serverId then Says(db, server, externalId, q)
            else if LastWins(items, externalId).None? then None
            else if q.AboutScope? then Some(ScopeIs(LastWins(items, externalId).value))
            else Says(db, server, externalId, q)
  {
    ScopesAreTheList(db, serverId, items, server, externalId);
    if server == serverId && LastWins(items, externalId).Some? {
      ListedScope(db, serverId, items, externalId);
    }
    var found := Find(ScopesStep(db, serverId, items).scopes, server, Some(externalId));
    if found.Some? {
      RowsSayTheSame(db, ScopesStep(db, serverId, items), serverId, items, found.value, q);
    }
  }

  /** What the rows of a scope that is still there answer. */
  lemma RowsSayTheSame(db: Db, after: Db, serverId: GoString, items: seq<Item<GoString, ScopeData>>, id: nat, q: Question)
    requires DbValid(db) && after == ScopesStep(db, serverId, items) && id in after.scopes
    ensures RowsSay(after, id, q) == if id in db.scopes then RowsSay(db, id, q) else None
  {
    var range := if q.AboutExclusion? then q.range else ("", "");
    var ip := if q.AboutLease? || q.AboutReservation? then q.ip else "";
    ChildrenStay(db, serverId, items, id, range, ip);
  }

  lemma CascadeAt<K, D>(t: map<nat, Row<nat, K, D>>, next: nat, scopes: set<nat>, owner: nat, key: K)
    requires Valid(t, next) && owner in scopes
    ensures At(Cascade(t, scopes), owner, key) == At(t, owner, key)
  {
    var c := Cascade(t, scopes);
    if Find(t, owner, Some(key)).Some? {
      FindIs(c, next, owner, key, Find(t, owner, Some(key)).value);
    } else if Find(c, owner, Some(key)).Some? {
      assert Has(t, owner, key, Find(c, owner, Some(key)).value);
    }
  }

  function ScopeItems(scopes: seq<Scope>): (items: seq<Item<GoString, ScopeData>>)
    ensures |items| == |scopes|
  {
    seq(|scopes|, i requires 0 <= i < |scopes| => ScopeItem(scopes[i]))
  }
}
