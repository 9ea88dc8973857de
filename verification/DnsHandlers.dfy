/** The handlers over a stored state. Each is proved to do to the tables what its step in DnsRecords
    says; what the server check and the agent answer are inputs. */
module DnsHandlers {
  import opened Options
  import opened Text
  import opened Ipv4
  import opened DnsNames
  import opened PtrNames
  import opened ResourceIds
  import opened DnsRecords

  /** These are the rows of a zone, in some order. */
  ghost predicate ZoneRows(s: Store, zoneId: GoString, rows: seq<Record>) {
    && (forall id | InZone(s, id, zoneId) :: s.records[id] in rows)
    && (forall r | r in rows :: exists id :: InZone(s, id, zoneId) && s.records[id] == r)
  }

  /** The loop of both validators and of the search for a related PTR row: the first row that qualifies. */
  method FindRow(rows: seq<Record>, qualifies: Record -> bool) returns (row: Option<Record>)
    ensures row.Some? ==> row.value in rows && qualifies(row.value)
    ensures row.None? ==> forall r | r in rows :: !qualifies(r)
  {
    for i := 0 to |rows|
      invariant forall j :: 0 <= j < i ==> !qualifies(rows[j])
    {
      if qualifies(rows[i]) {
        return Some(rows[i]);
      }
    }
    row := None;
  }

  class RecordStore {
    var zones: map<GoString, Zone>
    var records: map<GoString, Record>

    constructor (zones: map<GoString, Zone>, records: map<GoString, Record>)
      ensures View() == Store(zones, records)
    {
      this.zones, this.records := zones, records;
    }

    function View(): Store
      reads this
    {
      Store(zones, records)
    }

    method ReverseZoneExists(serverId: GoString, name: GoString) returns (found: bool)
      ensures found <==> DnsRecords.ReverseZoneExists(View(), serverId, name)
    {
      found := exists id | id in zones :: zones[id].serverId == serverId && EqualFold(zones[id].name, name) && zones[id].reverse;
    }

    /** The rows of a zone, in some order. */
    method ListDNSRecordsByZone(zoneId: GoString) returns (rows: seq<Record>)
      ensures ZoneRows(View(), zoneId, rows)
    {
      rows := [];
      var left := records.Keys;
      while left != {}
        invariant left <= records.Keys
        invariant forall r :: r in rows <==> exists id :: InZone(View(), id, zoneId) && id !in left && records[id] == r
        decreases |left|
      {
        var id :| id in left;
        if records[id].zoneId == zoneId {
          rows := rows + [records[id]];
        }
        left := left - {id};
      }
    }

    method UpsertDNSRecord(record: Record)
      modifies this
      ensures View() == Upsert(old(View()), record)
    {
      if record.zoneId in zones {
        records := records[record.id := Normalized(record)];
      }
    }

    method DeleteDNSRecord(id: GoString)
      modifies this
      ensures View() == Remove(old(View()), id)
    {
      records := records - {id};
    }
  }

  class Router {
    const store: RecordStore

    constructor (store: RecordStore)
      ensures this.store == store
    {
      this.store := store;
    }

    method ValidValueFor(typ: GoString, value: GoString) returns (ok: bool)
      ensures ok <==> ValidValue(typ, value)
    {
      if Kind(typ) == "CNAME" {
        var valid := IsValidCNAMEValue(value);
        if !valid {
          return false;
        }
      }
      ok := Kind(typ) == "A" ==> ParseIPv4(TrimSpace(value)).Parsed?;
    }

    method ValidateDNSRecordCreate(body: Record) returns (ok: bool)
      ensures ok <==> CreateAllowed(store.View(), body)
    {
      if body.zoneId !in store.zones || store.zones[body.zoneId].reverse {
        return false;
      }
      var rows := store.ListDNSRecordsByZone(body.zoneId);
      var clash := FindRow(rows, r => CreateClash(r, body));
      if clash.Some? {
        return false;
      }
      ok := ValidValueFor(body.typ, body.value);
    }

    method ValidateDNSRecordUpdate(before: Record, after: Record) returns (ok: bool)
      ensures ok <==> UpdateAllowed(store.View(), before, after)
    {
      if SameText(before.value, after.value) && before.createPtr == after.createPtr {
        return true;
      }
      ok := ValidValueFor(before.typ, after.value);
      if ok && Kind(before.typ) == "PTR" {
        ok := IsValidCNAMEValue(after.value);
      }
      if ok {
        var rows := store.ListDNSRecordsByZone(before.zoneId);
        var clash := FindRow(rows, (r: Record) => r.id != before.id && UpdateClash(r, before, after.value));
        ok := clash.None?;
      }
    }

    method DnsRecordCreateWarnings(record: Record, serverId: GoString) returns (warns: bool)
      ensures warns <==> WarnsBefore(store.View(), record, serverId)
    {
      if !EqualFold(TrimSpace(record.typ), "A") || !record.createPtr {
        return false;
      }
      var reverseZone := IPv4ReverseZone(record.value);
      if reverseZone.Malformed? {
        return true;
      }
      var found := store.ReverseZoneExists(serverId, reverseZone.value);
      warns := !found;
    }

    method RelatedPTRRecord(serverId: GoString, zoneName: GoString, record: Record) returns (row: Option<Record>)
      requires forall i :: i in store.records ==> store.records[i].id == i
      ensures Related(store.View(), serverId, zoneName, record, if row.Some? then Some(row.value.id) else None)
    {
      var expected := PtrRecordForARecord(serverId, zoneName, record);
      if expected.Malformed? {
        return None;
      }
      var rows := store.ListDNSRecordsByZone(expected.value.zoneId);
      row := FindRow(rows, r => MatchesPtr(r, expected.value));
      if row.None? {
        NoOtherMatch(store.View(), rows, expected.value);
      }
    }

    lemma NoOtherMatch(s: Store, rows: seq<Record>, expected: Record)
      requires ZoneRows(s, expected.zoneId, rows) && forall r | r in rows :: !MatchesPtr(r, expected)
      ensures forall id | id in s.records :: !MatchesPtr(s.records[id], expected)
    {
      forall id | id in s.records ensures !MatchesPtr(s.records[id], expected) {
        assert InZone(s, id, expected.zoneId) ==> s.records[id] in rows;
      }
    }

    method CreateDNSRecord(body: Record, ready: bool, reply: AgentReply)
      modifies store
      ensures store.View() == CreateStep(old(store.View()), body, ready, reply)
    {
      if !Complete(body) {
        return;
      }
      var zone := DecodeResourceID(body.zoneId, 2);
      if zone.Invalid? || !ready {
        return;
      }
      var allowed := ValidateDNSRecordCreate(body);
      if !allowed {
        return;
      }
      var warned := DnsRecordCreateWarnings(body, zone.value[0]);
      if reply.Failed? {
        return;
      }
      var record := Identified(zone.value, body);
      store.UpsertDNSRecord(record);
      if !warned && !reply.warned && IsA(body.typ) && body.createPtr {
        var ptr := PtrRecordForARecord(zone.value[0], zone.value[1], record);
        if ptr.Parsed? {
          store.UpsertDNSRecord(ptr.value);
        }
      }
    }

    /** The checks of an update; if they pass, the parts of its ID and the row before and after. */
    method ReadyUpdate(id: GoString, text: GoString, createPtr: Option<bool>, ready: bool)
      returns (edit: Option<(seq<GoString>, Record, Record)>)
      ensures edit.Some? <==> UpdateReady(store.View(), id, TrimSpace(text), createPtr, ready)
      ensures edit.Some? ==> DecodeParts(id, 5) == Decoded(edit.value.0) && id in store.records
      ensures edit.Some? ==>
                edit.value.1 == store.records[id] && edit.value.2 == Updated(store.records[id], edit.value.0, TrimSpace(text), createPtr)
    {
      var parts := DecodeResourceID(id, 5);
      if parts.Invalid? || !Manageable(parts.value[1], parts.value[2]) {
        return None;
      }
      var value := TrimSpace(text);
      if value == "" || !ready || id !in store.records {
        return None;
      }
      var before := store.records[id];
      var after := Updated(before, parts.value, value, createPtr);
      var allowed := ValidateDNSRecordUpdate(before, after);
      edit := if allowed then Some((parts.value, before, after)) else None;
    }

    method UpdateDNSRecord(id: GoString, text: GoString, createPtr: Option<bool>, ready: bool, reply: AgentReply,
                           ptrCreated: bool, ptrDeleted: bool)
      modifies store
      ensures store.View() == UpdateStep(old(store.View()), id, text, createPtr, ready, reply, ptrCreated, ptrDeleted)
    {
      var edit := ReadyUpdate(id, text, createPtr, ready);
      if edit.None? {
        return;
      }
      var (parts, before, after) := edit.value;
      var valueChanged, ptrChanged := !SameText(before.value, after.value), before.createPtr != after.createPtr;
      var dropsOld := IsA(parts[2]) && before.createPtr;
      var warns := DnsRecordCreateWarnings(after, parts[0]);
      var addsNew := IsA(parts[2]) && after.createPtr && !warns;
      var oldPtr := PtrRecordForARecord(parts[0], parts[1], before);
      var newPtr := PtrRecordForARecord(parts[0], parts[1], after);
      var warned := false;
      if valueChanged {
        if reply.Failed? {
          return;
        }
        warned := reply.warned;
      }
      if !valueChanged && ptrChanged && addsNew && newPtr.Parsed? && !ptrCreated {
        warned := true;
      }
      if !valueChanged && ptrChanged && dropsOld && oldPtr.Parsed? && !ptrDeleted {
        warned := true;
      }
      WriteUpdated(before, after, oldPtr, newPtr, dropsOld && (valueChanged || ptrChanged), addsNew && !warned);
    }

    method WriteUpdated(before: Record, after: Record, oldPtr: Parsed<Record>, newPtr: Parsed<Record>, drop: bool, add: bool)
      modifies store
      ensures store.View() == WriteUpdate(old(store.View()), before, after, oldPtr, newPtr, drop, add)
    {
      if drop && oldPtr.Parsed? {
        store.DeleteDNSRecord(oldPtr.value.id);
      }
      if !SameText(before.value, after.value) {
        store.DeleteDNSRecord(before.id);
      }
      store.UpsertDNSRecord(after);
      if add && newPtr.Parsed? {
        store.UpsertDNSRecord(newPtr.value);
      }
    }

    method ReadyDelete(id: GoString, ready: bool) returns (parts: Option<seq<GoString>>)
      ensures parts.Some? <==> DeleteReady(store.View(), id, ready)
      ensures parts.Some? ==> DecodeParts(id, 5) == Decoded(parts.value)
    {
      var decoded := DecodeResourceID(id, 5);
      if decoded.Invalid? || !Manageable(decoded.value[1], decoded.value[2]) || !ready || id !in store.records {
        return None;
      }
      parts := Some(decoded.value);
    }

    /** Rows are stored under their IDs. The related row is the one the search finds. */
    method DeleteDNSRecord(id: GoString, ready: bool, reply: AgentReply) returns (ghost related: Option<GoString>)
      requires forall i :: i in store.records ==> store.records[i].id == i
      modifies store
      ensures Possible(old(store.View()), Delete(id, ready, reply, related))
      ensures store.View() == DeleteStep(old(store.View()), id, ready, reply, related)
    {
      related := None;
      var parts := ReadyDelete(id, ready);
      if parts.None? {
        return;
      }
      var row := RelatedPTRRecord(parts.value[0], parts.value[1], store.records[id]);
      related := if row.Some? then Some(row.value.id) else None;
      if reply.Failed? {
        return;
      }
      WriteDeleted(id, if IsA(parts.value[2]) then row else None);
    }

    method WriteDeleted(id: GoString, row: Option<Record>)
      modifies store
      ensures store.View() == WriteDelete(old(store.View()), id, if row.Some? then Some(row.value.id) else None)
    {
      store.DeleteDNSRecord(id);
      if row.Some? {
        store.DeleteDNSRecord(row.value.id);
      }
    }
  }
}
