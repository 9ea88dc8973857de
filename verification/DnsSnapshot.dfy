/** Replacing a server's zones, and a zone's records, by what its agent reports. */
module DnsSnapshot {
  import opened Options
  import opened Text
  import opened ResourceIds
  import opened DnsRecords
  import opened DnsZoneRules

  datatype ListedZone = ListedZone(id: GoString, name: GoString, reverse: bool)

  function IdOfListed(serverId: GoString, z: ListedZone): GoString {
    if z.id == "" then DNSZoneID(serverId, z.name) else z.id
  }

  function ZoneOfListed(serverId: GoString, z: ListedZone): Zone {
    Zone(serverId, z.name, z.reverse)
  }

  /** The unique index on server and name. */
  ghost predicate UniqueNames(zones: map<GoString, Zone>) {
    forall i, j | i in zones && j in zones && i != j :: zones[i].serverId != zones[j].serverId || zones[i].name != zones[j].name
  }

  predicate NameTaken(zones: map<GoString, Zone>, id: GoString, z: Zone) {
    exists other | other in zones :: other != id && zones[other].serverId == z.serverId && zones[other].name == z.name
  }

  /** An upsert of a zone; it fails where the index would be violated. */
  function UpsertZone(zones: map<GoString, Zone>, id: GoString, z: Zone): Option<map<GoString, Zone>> {
    if NameTaken(zones, id, z) then None else Some(zones[id := z])
  }

  function UpsertZones(zones: map<GoString, Zone>, serverId: GoString, listed: seq<ListedZone>): Option<map<GoString, Zone>> {
    if listed == [] then Some(zones) else
    var z := listed[|listed| - 1];
    var before := UpsertZones(zones, serverId, listed[..|listed| - 1]);
    if before.None? then None else UpsertZone(before.value, IdOfListed(serverId, z), ZoneOfListed(serverId, z))
  }

  function LastListed(serverId: GoString, listed: seq<ListedZone>, id: GoString): Option<Zone> {
    if listed == [] then None
    else if IdOfListed(serverId, listed[|listed| - 1]) == id then Some(ZoneOfListed(serverId, listed[|listed| - 1]))
    else LastListed(serverId, listed[..|listed| - 1], id)
  }

  function IdsOfListed(serverId: GoString, listed: seq<ListedZone>): (keep: seq<GoString>)
    ensures |keep| == |listed|
    ensures forall i :: 0 <= i < |listed| ==> keep[i] == IdOfListed(serverId, listed[i])
  {
    seq(|listed|, i requires 0 <= i < |listed| => IdOfListed(serverId, listed[i]))
  }

  /** Deleting a server's stale zones deletes their records. */
  function DeleteStaleZones(s: Store, zones: map<GoString, Zone>, serverId: GoString, keep: seq<GoString>): Store {
    var left := map id | id in zones && (zones[id].serverId != serverId || id in keep) :: zones[id];
    Store(left, map id | id in s.records && s.records[id].zoneId in left :: s.records[id])
  }

  function ZonesStep(s: Store, serverId: GoString, listed: seq<ListedZone>): Option<Store> {
    var zones := UpsertZones(s.zones, serverId, listed);
    if zones.None? then None else Some(DeleteStaleZones(s, zones.value, serverId, IdsOfListed(serverId, listed)))
  }

  lemma {:induction false} ListedIds(serverId: GoString, listed: seq<ListedZone>, id: GoString)
    ensures id in IdsOfListed(serverId, listed) <==> LastListed(serverId, listed, id).Some?
    decreases |listed|
  {
    if listed != [] {
      var init := listed[..|listed| - 1];
      ListedIds(serverId, init, id);
      assert IdsOfListed(serverId, listed) == IdsOfListed(serverId, init) + [IdOfListed(serverId, listed[|listed| - 1])];
    }
  }

  lemma {:induction false} UpsertZonesAt(zones: map<GoString, Zone>, serverId: GoString, listed: seq<ListedZone>, id: GoString)
    requires UpsertZones(zones, serverId, listed).Some?
    ensures var after := UpsertZones(zones, serverId, listed).value;
            var last := LastListed(serverId, listed, id);
            && (last.Some? ==> id in after && after[id] == last.value && after[id].serverId == serverId)
            && (last.None? ==> (id in after <==> id in zones) && (id in zones ==> after[id] == zones[id]))
    ensures UniqueNames(zones) ==> UniqueNames(UpsertZones(zones, serverId, listed).value)
    decreases |listed|
  {
    if listed != [] {
      UpsertZonesAt(zones, serverId, listed[..|listed| - 1], id);
    }
  }

  function ZoneAt(s: Store, id: GoString): Option<Zone> {
    if id in s.zones then Some(s.zones[id]) else None
  }

  /** Afterwards the server's zones are exactly the ones listed, the last with each ID, and a zone whose
      ID is not listed stays if it is another server's; records go with their zones. */
  lemma ZonesAreTheList(s: Store, serverId: GoString, listed: seq<ListedZone>, t: Store, id: GoString)
    requires ZonesStep(s, serverId, listed) == Some(t)
    ensures ZoneAt(t, id) ==
            var last := LastListed(serverId, listed, id);
            if last.Some? then last
            else if ZoneAt(s, id).Some? && s.zones[id].serverId != serverId then ZoneAt(s, id) else None
    ensures (id in t.records <==> id in s.records && s.records[id].zoneId in t.zones)
    ensures (id in t.records ==> t.records[id] == s.records[id])
    ensures UniqueNames(s.zones) ==> UniqueNames(t.zones)
  {
    UpsertZonesAt(s.zones, serverId, listed, id);
    ListedIds(serverId, listed, id);
  }

  /** No listed ID is a zone of another server. */
  predicate TakesNoZone(s: Store, serverId: GoString, listed: seq<ListedZone>) {
    forall i | 0 <= i < |listed| ::
      IdOfListed(serverId, listed[i]) in s.zones ==> s.zones[IdOfListed(serverId, listed[i])].serverId == serverId
  }

  /** Other servers' zones are unchanged exactly when no listed ID is one of theirs. */
  lemma OtherServersUnchanged(s: Store, serverId: GoString, listed: seq<ListedZone>, t: Store)
    requires ZonesStep(s, serverId, listed) == Some(t)
    ensures (forall id | id in s.zones && s.zones[id].serverId != serverId :: ZoneAt(t, id) == ZoneAt(s, id)) <==>
            TakesNoZone(s, serverId, listed)
  {
    var keep := IdsOfListed(serverId, listed);
    if TakesNoZone(s, serverId, listed) {
      forall id | id in s.zones && s.zones[id].serverId != serverId ensures ZoneAt(t, id) == ZoneAt(s, id) {
        ZonesAreTheList(s, serverId, listed, t, id);
        ListedIds(serverId, listed, id);
      }
    } else {
      var i :| 0 <= i < |listed| && keep[i] in s.zones && s.zones[keep[i]].serverId != serverId;
      ZonesAreTheList(s, serverId, listed, t, keep[i]);
      ListedIds(serverId, listed, keep[i]);
      UpsertZonesAt(s.zones, serverId, listed, keep[i]);
      assert ZoneAt(t, keep[i]) != ZoneAt(s, keep[i]);
    }
  }

  /** A zone listed under the ID of another server's zone takes that zone over. */
  lemma ListedIdTakesZone(zoneId: GoString, name: GoString)
    requires zoneId != ""
    ensures var s := Store(map[zoneId := Zone("a", name, false)], map[]);
            var t := ZonesStep(s, "b", [ListedZone(zoneId, name, false)]);
            t.Some? && t.value.zones == map[zoneId := Zone("b", name, false)] && ZoneAt(t.value, zoneId) != ZoneAt(s, zoneId)
  {
    var s := Store(map[zoneId := Zone("a", name, false)], map[]);
    var listed := [ListedZone(zoneId, name, false)];
    assert listed[..0] == [];
    assert UpsertZones(s.zones, "b", []) == Some(s.zones);
    assert !NameTaken(s.zones, zoneId, Zone("b", name, false));
    assert IdsOfListed("b", listed) == [zoneId];
    assert zoneId in [zoneId];
    assert s.zones[zoneId := Zone("b", name, false)] == map[zoneId := Zone("b", name, false)];
    assert UpsertZones(s.zones, "b", listed) == Some(map[zoneId := Zone("b", name, false)]);
  }

  predicate ListsOwnIds(serverId: GoString, listed: seq<ListedZone>) {
    forall i | 0 <= i < |listed| :: IdOfListed(serverId, listed[i]) == DNSZoneID(serverId, listed[i].name)
  }

  lemma {:induction false} OwnIdsNeverClash(zones: map<GoString, Zone>, serverId: GoString, listed: seq<ListedZone>)
    requires OwnIds(zones) && ListsOwnIds(serverId, listed)
    ensures UpsertZones(zones, serverId, listed).Some? && OwnIds(UpsertZones(zones, serverId, listed).value)
    decreases |listed|
  {
    if listed != [] {
      OwnIdsNeverClash(zones, serverId, listed[..|listed| - 1]);
    }
  }

  lemma ZoneIdIsInjective(server: GoString, name: GoString, otherServer: GoString, otherName: GoString)
    ensures DNSZoneID(server, name) == DNSZoneID(otherServer, otherName) <==> server == otherServer && name == otherName
  {
    var a, b := [server, name], [otherServer, otherName];
    ResourceIdIsInjective(a, b);
    if a == b {
      assert a[0] == b[0] && a[1] == b[1];
    }
  }

  /** With the IDs the synchronization gives, a replacement always succeeds, keeps every zone under its
      own ID, and leaves every other server's zones as they are. */
  lemma SynchronizedZones(s: Store, serverId: GoString, listed: seq<ListedZone>)
    requires OwnIds(s.zones) && ListsOwnIds(serverId, listed)
    ensures var t := ZonesStep(s, serverId, listed);
            && t.Some? && OwnIds(t.value.zones)
            && forall id | id in s.zones && s.zones[id].serverId != serverId :: ZoneAt(t.value, id) == ZoneAt(s, id)
  {
    OwnIdsNeverClash(s.zones, serverId, listed);
    forall i | 0 <= i < |listed| && IdOfListed(serverId, listed[i]) in s.zones
      ensures s.zones[IdOfListed(serverId, listed[i])].serverId == serverId
    {
      var id := IdOfListed(serverId, listed[i]);
      ZoneIdIsInjective(serverId, listed[i].name, s.zones[id].serverId, s.zones[id].name);
    }
    OtherServersUnchanged(s, serverId, listed, ZonesStep(s, serverId, listed).value);
  }

  // ----- the records of a zone

  function RowOfListed(zoneId: GoString, z: Zone, r: Record): Record {
    Normalized(r.(zoneId := zoneId, id := if r.id == "" then RecordId(z, r) else r.id))
  }

  function RowsOfListed(zoneId: GoString, z: Zone, listed: seq<Record>): (rows: seq<Record>)
    ensures |rows| == |listed| && forall i :: 0 <= i < |listed| ==> rows[i] == RowOfListed(zoneId, z, listed[i])
  {
    seq(|listed|, i requires 0 <= i < |listed| => RowOfListed(zoneId, z, listed[i]))
  }

  /** Plain inserts, which fail on an ID that is there. */
  function InsertAll(records: map<GoString, Record>, rows: seq<Record>): Option<map<GoString, Record>> {
    if rows == [] then Some(records) else
    var row := rows[|rows| - 1];
    var before := InsertAll(records, rows[..|rows| - 1]);
    if before.None? || row.id in before.value then None else Some(before.value[row.id := row])
  }

  predicate IdAmong(rows: seq<Record>, id: GoString) {
    exists i | 0 <= i < |rows| :: rows[i].id == id
  }

  predicate FreshIds(records: map<GoString, Record>, rows: seq<Record>) {
    && (forall i | 0 <= i < |rows| :: rows[i].id !in records)
    && (forall i, j | 0 <= i < j < |rows| :: rows[i].id != rows[j].id)
  }

  lemma IdAmongLast(rows: seq<Record>, id: GoString)
    requires rows != []
    ensures IdAmong(rows, id) <==> IdAmong(rows[..|rows| - 1], id) || rows[|rows| - 1].id == id
  {
    var init := rows[..|rows| - 1];
    assert forall i | 0 <= i < |init| :: init[i].id == rows[i].id;
  }

  lemma {:induction false} InsertAllAt(records: map<GoString, Record>, rows: seq<Record>, id: GoString)
    requires InsertAll(records, rows).Some?
    ensures var after := InsertAll(records, rows).value;
            && (id in after <==> id in records || IdAmong(rows, id))
            && (id in records ==> after[id] == records[id])
    decreases |rows|
  {
    if rows != [] {
      InsertAllAt(records, rows[..|rows| - 1], id);
      IdAmongLast(rows, id);
    }
  }

  lemma {:induction false} InsertAllRow(records: map<GoString, Record>, rows: seq<Record>, i: nat)
    requires InsertAll(records, rows).Some? && i < |rows|
    ensures var after := InsertAll(records, rows).value; rows[i].id in after && after[rows[i].id] == rows[i]
    decreases |rows|
  {
    if i < |rows| - 1 {
      InsertAllRow(records, rows[..|rows| - 1], i);
    }
  }

  lemma {:induction false} InsertAllExactly(records: map<GoString, Record>, rows: seq<Record>)
    ensures InsertAll(records, rows).Some? <==> FreshIds(records, rows)
    decreases |rows|
  {
    if rows != [] {
      var init, row := rows[..|rows| - 1], rows[|rows| - 1];
      InsertAllExactly(records, init);
      if InsertAll(records, init).Some? {
        InsertAllAt(records, init, row.id);
      }
      FreshIdsLast(records, rows);
    }
  }

  lemma FreshIdsLast(records: map<GoString, Record>, rows: seq<Record>)
    requires rows != []
    ensures var init, row := rows[..|rows| - 1], rows[|rows| - 1];
            FreshIds(records, rows) <==> FreshIds(records, init) && row.id !in records && !IdAmong(init, row.id)
  {
    var init, row := rows[..|rows| - 1], rows[|rows| - 1];
    if FreshIds(records, init) && row.id !in records && !IdAmong(init, row.id) {
      forall i | 0 <= i < |init| ensures rows[i].id == init[i].id != row.id && rows[i].id !in records {
      }
    } else if FreshIds(records, rows) {
      assert forall i | 0 <= i < |init| :: init[i].id == rows[i].id;
    }
  }

  function WithoutZone(records: map<GoString, Record>, zoneId: GoString): map<GoString, Record> {
    map id | id in records && records[id].zoneId != zoneId :: records[id]
  }

  function RecordsStep(s: Store, zoneId: GoString, z: Zone, listed: seq<Record>): Option<Store> {
    var zones := UpsertZone(s.zones, zoneId, z);
    var records := InsertAll(WithoutZone(s.records, zoneId), RowsOfListed(zoneId, z, listed));
    if zones.None? || records.None? then None else Some(Store(zones.value, records.value))
  }

  /** A replacement of a zone's records succeeds exactly when the zone's name is free and the rows' IDs are
      distinct and not those of other zones' rows; then the zone's rows are the ones listed, and other
      zones' rows stay. */
  lemma RecordsAreTheList(s: Store, zoneId: GoString, z: Zone, listed: seq<Record>)
    ensures var rows := RowsOfListed(zoneId, z, listed);
            var t := RecordsStep(s, zoneId, z, listed);
            && (t.Some? <==> !NameTaken(s.zones, zoneId, z) && FreshIds(WithoutZone(s.records, zoneId), rows))
            && (t.Some? ==>
                  && (forall i | 0 <= i < |rows| :: rows[i].id in t.value.records && t.value.records[rows[i].id] == rows[i])
                  && (forall id | InZone(t.value, id, zoneId) :: IdAmong(rows, id))
                  && (forall id :: (id in s.records && s.records[id].zoneId != zoneId) ==> id in t.value.records && t.value.records[id] == s.records[id])
                  && (forall id :: (id in t.value.records && t.value.records[id].zoneId != zoneId) ==> id in s.records && t.value.records[id] == s.records[id]))
  {
    var rows, rest := RowsOfListed(zoneId, z, listed), WithoutZone(s.records, zoneId);
    InsertAllExactly(rest, rows);
    var t := RecordsStep(s, zoneId, z, listed);
    if t.Some? {
      forall i | 0 <= i < |rows| ensures rows[i].id in t.value.records && t.value.records[rows[i].id] == rows[i] {
        InsertAllRow(rest, rows, i);
      }
      forall id ensures id in t.value.records <==> id in rest || IdAmong(rows, id)
        ensures id in rest ==> t.value.records[id] == rest[id]
      {
        InsertAllAt(rest, rows, id);
      }
      assert forall i | 0 <= i < |rows| :: rows[i].zoneId == zoneId;
    }
  }

  /** Each record carries the ID that spells its fields, as the synchronization fills it in, or none. */
  predicate ListsOwnRecordIds(z: Zone, listed: seq<Record>) {
    forall i | 0 <= i < |listed| :: listed[i].id == "" || listed[i].id == RecordId(z, listed[i])
  }

  predicate DistinctRecords(listed: seq<Record>) {
    forall i, j | 0 <= i < j < |listed| ::
      listed[i].typ != listed[j].typ || listed[i].name != listed[j].name || listed[i].value != listed[j].value
  }

  /** Zones and rows are stored under the IDs that spell their fields. */
  ghost predicate Filed(s: Store) {
    OwnIds(s.zones) && forall id | id in s.records :: Described(s.zones, id, s.records[id])
  }

  /** In such a store, records with their own IDs replace those of a zone, stored already or new, exactly
      when no two have the same type, name and value; and the store stays such. */
  lemma SynchronizedRecords(s: Store, zoneId: GoString, z: Zone, listed: seq<Record>)
    requires Filed(s) && zoneId == DNSZoneID(z.serverId, z.name) && ListsOwnRecordIds(z, listed)
    ensures RecordsStep(s, zoneId, z, listed).Some? <==> DistinctRecords(listed)
    ensures RecordsStep(s, zoneId, z, listed).Some? ==> Filed(RecordsStep(s, zoneId, z, listed).value)
  {
    InsertAllExactly(WithoutZone(s.records, zoneId), RowsOfListed(zoneId, z, listed));
    OwnNameIsFree(s.zones, zoneId, z);
    OwnIdsAreFresh(s, zoneId, z, listed);
    var t := RecordsStep(s, zoneId, z, listed);
    if t.Some? {
      StaysFiled(s, zoneId, z, listed, t.value);
    }
  }

  lemma StaysFiled(s: Store, zoneId: GoString, z: Zone, listed: seq<Record>, t: Store)
    requires Filed(s) && zoneId == DNSZoneID(z.serverId, z.name) && ListsOwnRecordIds(z, listed)
    requires RecordsStep(s, zoneId, z, listed) == Some(t)
    ensures Filed(t)
  {
    RecordsAreTheList(s, zoneId, z, listed);
    forall id | id in t.records ensures Described(t.zones, id, t.records[id]) {
      if InZone(t, id, zoneId) {
        ListedIsDescribed(s, zoneId, z, listed, t, id);
      } else {
        assert Described(s.zones, id, s.records[id]);
      }
    }
  }

  lemma OwnNameIsFree(zones: map<GoString, Zone>, zoneId: GoString, z: Zone)
    requires OwnIds(zones) && zoneId == DNSZoneID(z.serverId, z.name)
    ensures !NameTaken(zones, zoneId, z)
  {
  }

  lemma ListedIsDescribed(s: Store, zoneId: GoString, z: Zone, listed: seq<Record>, t: Store, id: GoString)
    requires ListsOwnRecordIds(z, listed) && RecordsStep(s, zoneId, z, listed) == Some(t) && InZone(t, id, zoneId)
    ensures Described(t.zones, id, t.records[id])
  {
    var rows := RowsOfListed(zoneId, z, listed);
    RecordsAreTheList(s, zoneId, z, listed);
    var i :| 0 <= i < |rows| && rows[i].id == id;
    SpelledById(zoneId, z, listed[i]);
  }

  lemma SpelledById(zoneId: GoString, z: Zone, r: Record)
    requires r.id == "" || r.id == RecordId(z, r)
    ensures var row := RowOfListed(zoneId, z, r); row.id == RecordId(z, row) == RecordId(z, r) && row.ttl > 0
  {
  }

  lemma OwnIdsAreFresh(s: Store, zoneId: GoString, z: Zone, listed: seq<Record>)
    requires Filed(s) && zoneId == DNSZoneID(z.serverId, z.name) && ListsOwnRecordIds(z, listed)
    ensures FreshIds(WithoutZone(s.records, zoneId), RowsOfListed(zoneId, z, listed)) <==> DistinctRecords(listed)
  {
    var rows := RowsOfListed(zoneId, z, listed);
    forall i | 0 <= i < |rows| ensures rows[i].id !in WithoutZone(s.records, zoneId) {
      SpelledById(zoneId, z, listed[i]);
      if rows[i].id in s.records {
        SameIdSameZone(s, rows[i], z, zoneId);
      }
    }
    OwnRecordIdsDiffer(zoneId, z, listed);
  }

  lemma OwnRecordIdsDiffer(zoneId: GoString, z: Zone, listed: seq<Record>)
    requires ListsOwnRecordIds(z, listed)
    ensures var rows := RowsOfListed(zoneId, z, listed);
            (forall i, j | 0 <= i < j < |rows| :: rows[i].id != rows[j].id) <==> DistinctRecords(listed)
  {
    var rows := RowsOfListed(zoneId, z, listed);
    forall i, j | 0 <= i < j < |rows|
      ensures rows[i].id != rows[j].id <==>
              listed[i].typ != listed[j].typ || listed[i].name != listed[j].name || listed[i].value != listed[j].value
    {
      SpelledById(zoneId, z, listed[i]);
      SpelledById(zoneId, z, listed[j]);
      RecordIdIsInjective(z, listed[i], z, listed[j]);
    }
  }

  lemma SameIdSameZone(s: Store, row: Record, z: Zone, zoneId: GoString)
    requires Filed(s) && zoneId == DNSZoneID(z.serverId, z.name) && row.id == RecordId(z, row) && row.id in s.records
    ensures s.records[row.id].zoneId == zoneId
  {
    var other := s.records[row.id];
    assert Described(s.zones, row.id, other);
    RecordIdIsInjective(z, row, s.zones[other.zoneId], other);
  }

  // ----- the transactions

  class ZoneStore {
    var state: Store

    constructor ()
      ensures state == Store(map[], map[])
    {
      state := Store(map[], map[]);
    }

    /** If the statement after `failing` others fails, or the unique index does, nothing is changed. */
    method ReplaceDNSZones(serverId: GoString, listed: seq<ListedZone>, failing: int) returns (ok: bool)
      modifies this
      ensures ok <==> !(0 <= failing < 3 + |listed|) && ZonesStep(old(state), serverId, listed).Some?
      ensures ok ==> Some(state) == ZonesStep(old(state), serverId, listed)
      ensures !ok ==> state == old(state)
    {
      if failing == 0 {
        return false;
      }
      var zones := UpsertLoop(state.zones, serverId, listed, failing - 1);
      if zones.None? || failing == |listed| + 1 || failing == |listed| + 2 {
        return false;
      }
      state := DeleteStaleZones(state, zones.value.0, serverId, zones.value.1);
      ok := true;
    }

    method ReplaceDNSZoneRecords(zoneId: GoString, z: Zone, listed: seq<Record>, failing: int) returns (ok: bool)
      modifies this
      ensures ok <==> !(0 <= failing < 4 + |listed|) && RecordsStep(old(state), zoneId, z, listed).Some?
      ensures ok ==> Some(state) == RecordsStep(old(state), zoneId, z, listed)
      ensures !ok ==> state == old(state)
    {
      if 0 <= failing < 3 || NameTaken(state.zones, zoneId, z) {
        return false;
      }
      var records := InsertLoop(WithoutZone(state.records, zoneId), RowsOfListed(zoneId, z, listed), failing - 3);
      if records.None? || failing == 3 + |listed| {
        return false;
      }
      state := Store(state.zones[zoneId := z], records.value);
      ok := true;
    }
  }

  /** The zones after all upserts, and the IDs to keep. */
  method UpsertLoop(start: map<GoString, Zone>, serverId: GoString, listed: seq<ListedZone>, failing: int)
    returns (result: Option<(map<GoString, Zone>, seq<GoString>)>)
    ensures result.Some? <==> !(0 <= failing < |listed|) && UpsertZones(start, serverId, listed).Some?
    ensures result.Some? ==> result.value == (UpsertZones(start, serverId, listed).value, IdsOfListed(serverId, listed))
  {
    var zones, keep := start, [];
    for i := 0 to |listed|
      invariant !(0 <= failing < i) && UpsertZones(start, serverId, listed[..i]) == Some(zones)
      invariant keep == IdsOfListed(serverId, listed[..i])
    {
      assert listed[..i + 1][..i] == listed[..i];
      var id, z := IdOfListed(serverId, listed[i]), ZoneOfListed(serverId, listed[i]);
      if failing == i {
        return None;
      }
      if NameTaken(zones, id, z) {
        FailedPrefix(start, serverId, listed, i + 1);
        return None;
      }
      zones, keep := zones[id := z], keep + [id];
    }
    assert listed[..|listed|] == listed;
    result := Some((zones, keep));
  }

  lemma {:induction false} FailedPrefix(zones: map<GoString, Zone>, serverId: GoString, listed: seq<ListedZone>, n: nat)
    requires n <= |listed| && UpsertZones(zones, serverId, listed[..n]).None?
    ensures UpsertZones(zones, serverId, listed).None?
    decreases |listed|
  {
    if n < |listed| {
      assert listed[..|listed| - 1][..n] == listed[..n];
      FailedPrefix(zones, serverId, listed[..|listed| - 1], n);
    } else {
      assert listed[..n] == listed;
    }
  }

  method InsertLoop(start: map<GoString, Record>, rows: seq<Record>, failing: int) returns (result: Option<map<GoString, Record>>)
    ensures result == if 0 <= failing < |rows| then None else InsertAll(start, rows)
  {
    var records := start;
    for i := 0 to |rows|
      invariant !(0 <= failing < i) && InsertAll(start, rows[..i]) == Some(records)
    {
      assert rows[..i + 1][..i] == rows[..i];
      if failing == i {
        return None;
      }
      if rows[i].id in records {
        InsertAllExactly(start, rows[..i + 1]);
        InsertAllExactly(start, rows);
        PrefixOfFresh(start, rows, i + 1);
        return None;
      }
      records := records[rows[i].id := rows[i]];
    }
    assert rows[..|rows|] == rows;
    result := Some(records);
  }

  lemma PrefixOfFresh(records: map<GoString, Record>, rows: seq<Record>, n: nat)
    requires n <= |rows|
    ensures FreshIds(records, rows) ==> FreshIds(records, rows[..n])
  {
  }
}
