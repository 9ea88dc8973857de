/** What the zone and record tables say of the lists they were replaced by, entry by entry. */
module DnsContents {
  import opened Options
  import opened Text
  import opened ResourceIds
  import opened DnsRecords
  import opened DnsSnapshot

  // ----- zones

  /** The ID a zone is stored under: its own, or the one that spells its server and name. */
  predicate StoredUnder(serverId: GoString, l: ListedZone, id: GoString) {
    id == if l.id != "" then l.id else DNSZoneID(serverId, l.name)
  }

  predicate SaysZone(z: Zone, serverId: GoString, l: ListedZone) {
    z.serverId == serverId && z.name == l.name && z.reverse == l.reverse
  }

  /** The last zone listed for an ID. */
  predicate LastFor(serverId: GoString, listed: seq<ListedZone>, k: nat, id: GoString) {
    k < |listed| && StoredUnder(serverId, listed[k], id) && forall j | k < j < |listed| :: !StoredUnder(serverId, listed[j], id)
  }

  lemma {:induction false} LastIsListed(serverId: GoString, listed: seq<ListedZone>, k: nat, id: GoString)
    requires LastFor(serverId, listed, k, id)
    ensures LastListed(serverId, listed, id).Some? && SaysZone(LastListed(serverId, listed, id).value, serverId, listed[k])
    decreases |listed|
  {
    if k < |listed| - 1 {
      assert !StoredUnder(serverId, listed[|listed| - 1], id);
      LastIsListed(serverId, listed[..|listed| - 1], k, id);
    }
  }

  lemma {:induction false} SomeIsLast(serverId: GoString, listed: seq<ListedZone>, id: GoString) returns (k: nat)
    requires LastListed(serverId, listed, id).Some?
    ensures LastFor(serverId, listed, k, id)
    decreases |listed|
  {
    if IdOfListed(serverId, listed[|listed| - 1]) == id {
      k := |listed| - 1;
    } else {
      var init := listed[..|listed| - 1];
      k := SomeIsLast(serverId, init, id);
      forall j | k < j < |listed| ensures !StoredUnder(serverId, listed[j], id) {
        assert j < |init| ==> listed[j] == init[j] && !StoredUnder(serverId, init[j], id);
      }
    }
  }

  /** After a replacement the last zone listed for an ID is there as listed, and the server has no other
      zone. */
  lemma ZonesAreStored(s: Store, serverId: GoString, listed: seq<ListedZone>, t: Store, id: GoString)
    requires ZonesStep(s, serverId, listed) == Some(t)
    ensures forall k: nat | LastFor(serverId, listed, k, id) :: id in t.zones && SaysZone(t.zones[id], serverId, listed[k])
    ensures id in t.zones && t.zones[id].serverId == serverId ==> exists k: nat :: LastFor(serverId, listed, k, id)
  {
    ZonesAreTheList(s, serverId, listed, t, id);
    forall k: nat | LastFor(serverId, listed, k, id) ensures id in t.zones && SaysZone(t.zones[id], serverId, listed[k]) {
      LastIsListed(serverId, listed, k, id);
    }
    if id in t.zones && t.zones[id].serverId == serverId {
      var k := SomeIsLast(serverId, listed, id);
    }
  }

  /** A zone may be stored under an ID unless its server has that name under another. */
  predicate NameIsFree(zones: map<GoString, Zone>, id: GoString, serverId: GoString, name: GoString) {
    forall other | other in zones && other != id :: !(zones[other].serverId == serverId && zones[other].name == name)
  }

  /** A list with one more zone replaces the zones exactly when the list did and the zone's name is free then. */
  lemma {:induction false} ZonesAreTakenExactly(s: Store, serverId: GoString, listed: seq<ListedZone>, l: ListedZone, id: GoString)
    requires StoredUnder(serverId, l, id)
    ensures ZonesStep(s, serverId, []).Some?
    ensures ZonesStep(s, serverId, listed + [l]).Some? <==>
            var before := UpsertZones(s.zones, serverId, listed);
            before.Some? && NameIsFree(before.value, id, serverId, l.name)
  {
    assert (listed + [l])[..|listed|] == listed;
  }

  // ----- records

  /** A row says what is listed, in its zone, with an ID and a TTL of its own or by default. */
  predicate SaysRecord(row: Record, zoneId: GoString, z: Zone, l: Record) {
    && row.zoneId == zoneId && row.name == l.name && row.typ == l.typ && row.value == l.value && row.createPtr == l.createPtr
    && row.ttl == (if l.ttl > 0 then l.ttl else 3600)
    && row.id == if l.id != "" then l.id else DNSRecordID(z.serverId, z.name, l.typ, l.name, l.value)
  }

  lemma RowSays(zoneId: GoString, z: Zone, l: Record)
    ensures SaysRecord(RowOfListed(zoneId, z, l), zoneId, z, l)
  {
  }

  /** After a replacement the zone is there, each record listed has a row that says it, every row of the zone
      says one that is listed, and the other zones are as they were. */
  lemma {:induction false} RecordsAreStored(s: Store, zoneId: GoString, z: Zone, listed: seq<Record>, t: Store)
    requires RecordsStep(s, zoneId, z, listed) == Some(t)
    ensures zoneId in t.zones && t.zones[zoneId] == z
    ensures forall id | id != zoneId :: ZoneAt(t, id) == ZoneAt(s, id)
    ensures forall k | 0 <= k < |listed| :: exists id :: id in t.records && t.records[id].id == id && SaysRecord(t.records[id], zoneId, z, listed[k])
    ensures forall id | InZone(t, id, zoneId) :: t.records[id].id == id && exists k :: 0 <= k < |listed| && SaysRecord(t.records[id], zoneId, z, listed[k])
  {
    var rows := RowsOfListed(zoneId, z, listed);
    RecordsAreTheList(s, zoneId, z, listed);
    forall k | 0 <= k < |listed|
      ensures exists id :: id in t.records && t.records[id].id == id && SaysRecord(t.records[id], zoneId, z, listed[k])
    {
      RowSays(zoneId, z, listed[k]);
      assert t.records[rows[k].id] == rows[k];
    }
    forall id | InZone(t, id, zoneId)
      ensures t.records[id].id == id && exists k :: 0 <= k < |listed| && SaysRecord(t.records[id], zoneId, z, listed[k])
    {
      var k :| 0 <= k < |rows| && rows[k].id == id;
      RowSays(zoneId, z, listed[k]);
      assert t.records[rows[k].id] == rows[k];
    }
  }
}
