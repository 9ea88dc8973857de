/** The transactions that replace a stored DHCP snapshot. */
module DhcpTransactions {
  import opened Options
  import opened Text
  import opened SnapshotTables
  import opened DhcpSnapshot
  import opened DhcpContents

  class DhcpStore {
    var db: Db

    constructor ()
      ensures DbValid(db)
    {
      db := Db(map[], map[], map[], map[], 0);
    }

    /** A transaction of `BEGIN`, the scope's upsert, a loop for each kind of row, three deletes and
        `COMMIT`. If the statement after `failing` others fails, nothing is changed. */
    method ReplaceDHCPScopeSnapshot(serverId: GoString, scope: Scope, exclusions: seq<Exclusion>, leases: seq<Lease>,
                                    reservations: seq<Reservation>, parse: GoString -> Option<int>, now: int, failing: int)
      returns (ok: bool)
      requires DbValid(db)
      modifies this
      ensures DbValid(db)
      ensures ok <==> !(0 <= failing < 6 + |exclusions| + |leases| + |reservations|)
      ensures ok ==> db == SnapshotStep(old(db), serverId, SnapshotOf(scope, exclusions, leases, reservations, parse, now))
      ensures ok ==> exists id :: SnapshotStored(db, id, serverId, scope, exclusions, leases, reservations, parse, now)
      ensures !ok ==> db == old(db)
    {
      SnapshotIsStored(db, serverId, scope, exclusions, leases, reservations, parse, now);
      ok := ReplaceSnapshot(serverId, SnapshotOf(scope, exclusions, leases, reservations, parse, now), failing);
    }

    method ReplaceSnapshot(serverId: GoString, snap: Snapshot, failing: int) returns (ok: bool)
      requires DbValid(db)
      modifies this
      ensures DbValid(db)
      ensures ok <==> !(0 <= failing < 6 + |snap.exclusions| + |snap.leases| + |snap.reservations|)
      ensures ok ==> db == SnapshotStep(old(db), serverId, snap)
      ensures !ok ==> db == old(db)
    {
      if failing == 0 || failing == 1 {
        return false;
      }
      var scopes, id := Upsert(db.scopes, serverId, snap.scope, db.next);
      ValidInTurn(db, id, snap);
      var x := UpsertLoop(db.exclusions, id, snap.exclusions, db.next + 1, failing - 2);
      if x.None? {
        return false;
      }
      var l := UpsertLoop(db.leases, id, snap.leases, x.value.next, failing - 2 - |snap.exclusions|);
      if l.None? {
        return false;
      }
      var r := UpsertLoop(db.reservations, id, snap.reservations, l.value.next, failing - 2 - |snap.exclusions| - |snap.leases|);
      if r.None? {
        return false;
      }
      var done := 2 + |snap.exclusions| + |snap.leases| + |snap.reservations|;
      if done <= failing < done + 4 {
        return false;
      }
      SnapshotStepIsValid(db, serverId, snap);
      db := Db(scopes, DeleteStale(x.value.table, id, x.value.keep), DeleteStale(l.value.table, id, l.value.keep),
               DeleteStale(r.value.table, id, r.value.keep), r.value.next);
      ok := true;
    }

    method ReplaceDHCPScopes(serverId: GoString, scopes: seq<Scope>, failing: int) returns (ok: bool)
      requires DbValid(db)
      modifies this
      ensures DbValid(db)
      ensures ok <==> !(0 <= failing < 3 + |scopes|)
      ensures ok ==> db == ScopesStep(old(db), serverId, ScopeItems(scopes)) && ScopesStored(db, serverId, scopes)
      ensures !ok ==> db == old(db)
    {
      if failing == 0 {
        return false;
      }
      var u := UpsertLoop(db.scopes, serverId, ScopeItems(scopes), db.next, failing - 1);
      if u.None? || 1 + |scopes| <= failing < 3 + |scopes| {
        return false;
      }
      ScopesStepIsValid(db, serverId, ScopeItems(scopes));
      ScopesAreStored(db, serverId, scopes);
      db := DeleteScopes(db, DeleteStale(u.value.table, serverId, u.value.keep), u.value.next);
      ok := true;
    }
  }
}
