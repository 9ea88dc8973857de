/** What the tables say of the reports they were made from, report by report and field by field. */
module DhcpContents {
  import opened Options
  import opened Text
  import opened SnapshotTables
  import opened DhcpSnapshot

  function KeyText(s: Scope): GoString {
    if TrimSpace(s.externalId) != "" then TrimSpace(s.externalId) else FirstText(s.id, s.subnet, s.name)
  }

  /** Unlimited, or both figures given, or the missing one made from the other, or a day. */
  predicate LeaseOf(s: Scope, hours: int, seconds: int) {
    if s.seconds == -1 then hours == 0 && seconds == -1
    else if s.seconds > 0 then
      seconds == s.seconds && (if s.hours > 0 then hours == s.hours else (hours - 1) * 3600 < seconds <= hours * 3600)
    else if s.hours > 0 then hours == s.hours && seconds == s.hours * 3600
    else hours == 24 && seconds == 86400
  }

  /** A row of the server that says what the reported scope says. */
  ghost predicate ScopeStored(db: Db, id: nat, serverId: GoString, s: Scope) {
    && id in db.scopes && db.scopes[id].owner == serverId
    && db.scopes[id].key == (if KeyText(s) == "" then None else Some(KeyText(s)))
    && SaysScope(db.scopes[id].data, s)
  }

  predicate SaysScope(d: ScopeData, s: Scope) {
    && d.name == s.name && d.description == s.description && d.subnet == s.subnet && d.gateway == s.gateway
    && d.startRange == s.startRange && d.endRange == s.endRange && LeaseOf(s, d.hours, d.seconds)
    && d.state == (if s.state == "" then "Active" else s.state)
  }

  predicate SaysExclusion(externalId: GoString, x: Exclusion) {
    externalId == if TrimSpace(x.externalId) != "" then TrimSpace(x.externalId)
                  else if x.externalId == "" then TrimSpace(x.startIp + "-" + x.endIp) else ""
  }

  predicate SaysLease(d: LeaseData, l: Lease, parse: GoString -> Option<int>, now: int) {
    && d.mac == l.mac && d.hostname == l.hostname
    && d.state == (if TrimSpace(l.state) != "" then TrimSpace(l.state) else "Active")
    && d.externalId == FirstText(l.externalId, l.id, l.ip)
    && (if l.expiresAt == "" then d.expires.ZeroTime?
        else d.expires.Instant? && d.expires.t == if parse(l.expiresAt).Some? then parse(l.expiresAt).value else now)
  }

  predicate SaysReservation(d: ReservationData, r: Reservation) {
    && d.mac == r.mac && d.name == r.name && d.description == r.description
    && d.externalId == FirstText(r.externalId, r.id, r.ip)
  }

  /** The last report of its range, or of its address. */
  predicate LastExclusion(xs: seq<Exclusion>, k: nat) {
    k < |xs| && forall j | k < j < |xs| :: (xs[j].startIp, xs[j].endIp) != (xs[k].startIp, xs[k].endIp)
  }

  predicate LastLease(ls: seq<Lease>, k: nat) {
    k < |ls| && forall j | k < j < |ls| :: ls[j].ip != ls[k].ip
  }

  predicate LastReservation(rs: seq<Reservation>, k: nat) {
    k < |rs| && forall j | k < j < |rs| :: rs[j].ip != rs[k].ip
  }

  ghost predicate ExclusionsStored(db: Db, id: nat, xs: seq<Exclusion>) {
    && (forall k: nat | LastExclusion(xs, k) ::
          var d := At(db.exclusions, id, (xs[k].startIp, xs[k].endIp)); d.Some? && SaysExclusion(d.value, xs[k]))
    && (forall range | At(db.exclusions, id, range).Some? :: exists k :: 0 <= k < |xs| && (xs[k].startIp, xs[k].endIp) == range)
  }

  ghost predicate LeasesStored(db: Db, id: nat, ls: seq<Lease>, parse: GoString -> Option<int>, now: int) {
    && (forall k: nat | LastLease(ls, k) :: var d := At(db.leases, id, ls[k].ip); d.Some? && SaysLease(d.value, ls[k], parse, now))
    && (forall ip | At(db.leases, id, ip).Some? :: exists k :: 0 <= k < |ls| && ls[k].ip == ip)
  }

  ghost predicate ReservationsStored(db: Db, id: nat, rs: seq<Reservation>) {
    && (forall k: nat | LastReservation(rs, k) :: var d := At(db.reservations, id, rs[k].ip); d.Some? && SaysReservation(d.value, rs[k]))
    && (forall ip | At(db.reservations, id, ip).Some? :: exists k :: 0 <= k < |rs| && rs[k].ip == ip)
  }

  /** The scope's row and those that belong to it say what the reports say, and no more. */
  ghost predicate SnapshotStored(db: Db, id: nat, serverId: GoString, scope: Scope, exclusions: seq<Exclusion>, leases: seq<Lease>,
                                 reservations: seq<Reservation>, parse: GoString -> Option<int>, now: int) {
    && ScopeStored(db, id, serverId, scope)
    && ExclusionsStored(db, id, exclusions) && LeasesStored(db, id, leases, parse, now) && ReservationsStored(db, id, reservations)
  }

  // ----- items

  lemma FirstOfOne(a: GoString)
    ensures FirstNonEmpty([a]) == TrimSpace(a)
  {
    assert [a][1..] == [];
  }

  lemma FirstOfTwo(a: GoString, b: GoString)
    ensures FirstNonEmpty([a, b]) == if TrimSpace(a) != "" then TrimSpace(a) else TrimSpace(b)
  {
    assert [a, b][1..] == [b];
    FirstOfOne(b);
  }

  lemma FirstOfThree(a: GoString, b: GoString, c: GoString)
    ensures FirstNonEmpty([a, b, c]) == FirstText(a, b, c)
  {
    assert [a, b, c][1..] == [b, c];
    FirstOfTwo(b, c);
  }

  lemma KeyIs(s: Scope)
    ensures ScopeItem(s).key == (if KeyText(s) == "" then None else Some(KeyText(s)))
  {
    var texts := [s.externalId, s.id, s.subnet, s.name];
    assert texts[1..] == [s.id, s.subnet, s.name];
    FirstOfThree(s.id, s.subnet, s.name);
  }

  lemma ScopeItemSays(s: Scope)
    ensures SaysScope(ScopeItem(s).data, s)
  {
  }

  lemma ExclusionItemSays(x: Exclusion)
    ensures ExclusionItem(x).key == Some((x.startIp, x.endIp)) && SaysExclusion(ExclusionItem(x).data, x)
  {
    var fallback := if x.externalId != "" then x.externalId else x.startIp + "-" + x.endIp;
    FirstOfTwo(x.externalId, fallback);
  }

  lemma LeaseItemSays(l: Lease, parse: GoString -> Option<int>, now: int)
    ensures LeaseItem(l, parse, now).key == Some(l.ip) && SaysLease(LeaseItem(l, parse, now).data, l, parse, now)
  {
    FirstOfThree(l.externalId, l.id, l.ip);
    FirstOfTwo(l.state, "Active");
    assert TrimSpace("Active") == "Active";
  }

  lemma ReservationItemSays(r: Reservation)
    ensures ReservationItem(r).key == Some(r.ip) && SaysReservation(ReservationItem(r).data, r)
  {
    FirstOfThree(r.externalId, r.id, r.ip);
  }

  // ----- one scope's snapshot

  lemma ScopeIsStored(db: Db, serverId: GoString, scope: Scope, snap: Snapshot)
    requires DbValid(db) && snap.scope == ScopeItem(scope)
    ensures ScopeStored(SnapshotStep(db, serverId, snap), ScopeId(db, serverId, snap), serverId, scope)
  {
    KeyIs(scope);
    ScopeItemSays(scope);
  }

  lemma {:induction false} ExclusionsAreStored(db: Db, id: nat, xs: seq<Exclusion>, items: seq<Item<Range, GoString>>)
    requires |items| == |xs| && forall k | 0 <= k < |xs| :: items[k] == ExclusionItem(xs[k])
    requires forall range :: At(db.exclusions, id, range) == LastWins(items, range)
    ensures ExclusionsStored(db, id, xs)
  {
    forall k | 0 <= k < |xs| ensures items[k].key == Some((xs[k].startIp, xs[k].endIp)) && SaysExclusion(items[k].data, xs[k]) {
      ExclusionItemSays(xs[k]);
    }
    forall k: nat | LastExclusion(xs, k)
      ensures At(db.exclusions, id, (xs[k].startIp, xs[k].endIp)) == Some(items[k].data)
    {
      LastItemWins(items, k);
    }
    forall range | At(db.exclusions, id, range).Some? ensures exists k :: 0 <= k < |xs| && (xs[k].startIp, xs[k].endIp) == range {
      WinnerIsAnItem(items, range);
      var k :| 0 <= k < |items| && items[k].key == Some(range);
      assert (xs[k].startIp, xs[k].endIp) == range;
    }
  }

  lemma {:induction false} LeasesAreStored(db: Db, id: nat, ls: seq<Lease>, parse: GoString -> Option<int>, now: int, items: seq<Item<GoString, LeaseData>>)
    requires |items| == |ls| && forall k | 0 <= k < |ls| :: items[k] == LeaseItem(ls[k], parse, now)
    requires forall ip :: At(db.leases, id, ip) == LastWins(items, ip)
    ensures LeasesStored(db, id, ls, parse, now)
  {
    assert forall k | 0 <= k < |ls| :: items[k].key == Some(ls[k].ip);
    forall k: nat | LastLease(ls, k)
      ensures At(db.leases, id, ls[k].ip) == Some(items[k].data) && SaysLease(items[k].data, ls[k], parse, now)
    {
      LeaseItemSays(ls[k], parse, now);
      LastItemWins(items, k);
    }
    forall ip | At(db.leases, id, ip).Some? ensures exists k :: 0 <= k < |ls| && ls[k].ip == ip {
      WinnerIsAnItem(items, ip);
      var k :| 0 <= k < |items| && items[k].key == Some(ip);
      assert ls[k].ip == ip;
    }
  }

  lemma {:induction false} ReservationsAreStored(db: Db, id: nat, rs: seq<Reservation>, items: seq<Item<GoString, ReservationData>>)
    requires |items| == |rs| && forall k | 0 <= k < |rs| :: items[k] == ReservationItem(rs[k])
    requires forall ip :: At(db.reservations, id, ip) == LastWins(items, ip)
    ensures ReservationsStored(db, id, rs)
  {
    forall k | 0 <= k < |rs| ensures items[k].key == Some(rs[k].ip) && SaysReservation(items[k].data, rs[k]) {
      ReservationItemSays(rs[k]);
    }
    forall k: nat | LastReservation(rs, k) ensures At(db.reservations, id, rs[k].ip) == Some(items[k].data) {
      LastItemWins(items, k);
    }
    forall ip | At(db.reservations, id, ip).Some? ensures exists k :: 0 <= k < |rs| && rs[k].ip == ip {
      WinnerIsAnItem(items, ip);
      var k :| 0 <= k < |items| && items[k].key == Some(ip);
      assert rs[k].ip == ip;
    }
  }

  lemma AllContents(db: Db, serverId: GoString, snap: Snapshot)
    requires DbValid(db)
    ensures var id, after := ScopeId(db, serverId, snap), SnapshotStep(db, serverId, snap);
            && (forall range :: At(after.exclusions, id, range) == LastWins(snap.exclusions, range))
            && (forall ip :: At(after.leases, id, ip) == LastWins(snap.leases, ip))
            && (forall ip :: At(after.reservations, id, ip) == LastWins(snap.reservations, ip))
  {
    var id, after := ScopeId(db, serverId, snap), SnapshotStep(db, serverId, snap);
    forall range ensures At(after.exclusions, id, range) == LastWins(snap.exclusions, range) {
      SnapshotContents(db, serverId, snap, range, "");
    }
    forall ip ensures At(after.leases, id, ip) == LastWins(snap.leases, ip) && At(after.reservations, id, ip) == LastWins(snap.reservations, ip) {
      SnapshotContents(db, serverId, snap, ("", ""), ip);
    }
  }

  /** After a snapshot step the tables say what the reports say. */
  lemma {:induction false} SnapshotIsStored(db: Db, serverId: GoString, scope: Scope, exclusions: seq<Exclusion>, leases: seq<Lease>,
                         reservations: seq<Reservation>, parse: GoString -> Option<int>, now: int)
    requires DbValid(db)
    ensures var snap := SnapshotOf(scope, exclusions, leases, reservations, parse, now);
            SnapshotStored(SnapshotStep(db, serverId, snap), ScopeId(db, serverId, snap), serverId, scope, exclusions, leases,
                           reservations, parse, now)
  {
    var snap := SnapshotOf(scope, exclusions, leases, reservations, parse, now);
    var id, after := ScopeId(db, serverId, snap), SnapshotStep(db, serverId, snap);
    ScopeIsStored(db, serverId, scope, snap);
    AllContents(db, serverId, snap);
    ExclusionsAreStored(after, id, exclusions, snap.exclusions);
    LeasesAreStored(after, id, leases, parse, now, snap.leases);
    ReservationsAreStored(after, id, reservations, snap.reservations);
  }

  // ----- a server's scopes

  /** The last report with its key, or one without a key. */
  predicate LastScope(scopes: seq<Scope>, k: nat) {
    k < |scopes| && (KeyText(scopes[k]) == "" || forall j | k < j < |scopes| :: KeyText(scopes[j]) != KeyText(scopes[k]))
  }

  /** The server has a row for each scope that counts, and no other. */
  ghost predicate ScopesStored(db: Db, serverId: GoString, scopes: seq<Scope>) {
    && (forall k: nat | LastScope(scopes, k) :: exists id :: ScopeStored(db, id, serverId, scopes[k]))
    && (forall id | id in db.scopes && db.scopes[id].owner == serverId :: exists k :: 0 <= k < |scopes| && ScopeStored(db, id, serverId, scopes[k]))
  }

  lemma RowIsStored(db: Db, id: nat, serverId: GoString, s: Scope)
    requires id in db.scopes && db.scopes[id] == Row(serverId, ScopeItem(s).key, ScopeItem(s).data)
    ensures ScopeStored(db, id, serverId, s)
  {
    KeyIs(s);
    ScopeItemSays(s);
  }

  lemma {:induction false} ListedIsStored(db: Db, serverId: GoString, scopes: seq<Scope>, k: nat)
    requires DbValid(db) && LastScope(scopes, k)
    ensures exists id :: ScopeStored(ScopesStep(db, serverId, ScopeItems(scopes)), id, serverId, scopes[k])
  {
    var items := ScopeItems(scopes);
    var after := ScopesStep(db, serverId, items);
    forall j | 0 <= j < |scopes|
      ensures items[j] == ScopeItem(scopes[j]) && items[j].key == (if KeyText(scopes[j]) == "" then None else Some(KeyText(scopes[j])))
    {
      KeyIs(scopes[j]);
    }
    if items[k].key.None? {
      var i := UnkeyedIsKept(db.scopes, serverId, items, db.next, k);
      RowIsStored(after, i, serverId, scopes[k]);
    } else {
      LastItemWins(items, k);
      ReplaceIsLastWins(db.scopes, serverId, items, db.next, serverId, items[k].key.value);
      var found := Find(after.scopes, serverId, items[k].key);
      RowIsStored(after, found.value, serverId, scopes[k]);
    }
  }

  lemma {:induction false} StoredIsListed(db: Db, serverId: GoString, scopes: seq<Scope>, id: nat)
    requires DbValid(db)
    requires var after := ScopesStep(db, serverId, ScopeItems(scopes)); id in after.scopes && after.scopes[id].owner == serverId
    ensures exists k :: 0 <= k < |scopes| && ScopeStored(ScopesStep(db, serverId, ScopeItems(scopes)), id, serverId, scopes[k])
  {
    var items := ScopeItems(scopes);
    KeptIsAnItem(db.scopes, serverId, items, db.next, id);
    var u := UpsertAll(db.scopes, serverId, items, db.next);
    var k :| 0 <= k < |items| && u.table[id] == Row(serverId, items[k].key, items[k].data);
    RowIsStored(ScopesStep(db, serverId, items), id, serverId, scopes[k]);
  }

  /** After the replacement the server's rows say what the reported scopes say. */
  lemma {:induction false} ScopesAreStored(db: Db, serverId: GoString, scopes: seq<Scope>)
    requires DbValid(db)
    ensures ScopesStored(ScopesStep(db, serverId, ScopeItems(scopes)), serverId, scopes)
  {
    var after := ScopesStep(db, serverId, ScopeItems(scopes));
    forall k: nat | LastScope(scopes, k) ensures exists id :: ScopeStored(after, id, serverId, scopes[k]) {
      ListedIsStored(db, serverId, scopes, k);
    }
    forall id | id in after.scopes && after.scopes[id].owner == serverId
      ensures exists k :: 0 <= k < |scopes| && ScopeStored(after, id, serverId, scopes[k])
    {
      StoredIsListed(db, serverId, scopes, id);
    }
  }
}
