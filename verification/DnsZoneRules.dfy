/** What every run of creates, updates and deletes keeps in the forward zones: a name with a CNAME has
    no other record, no two rows agree on name, type and value, and each row's ID spells its fields. */
module DnsZoneRules {
  import opened Options
  import opened Text
  import opened Ipv4
  import opened PtrNames
  import opened ResourceIds
  import opened DnsRecords

  /** Zones are stored under the IDs their server and name give. */
  ghost predicate OwnIds(zones: map<GoString, Zone>) {
    forall id | id in zones :: id == DNSZoneID(zones[id].serverId, zones[id].name)
  }

  /** And a zone named in in-addr.arpa is marked as reverse. */
  ghost predicate ZonesOk(zones: map<GoString, Zone>) {
    OwnIds(zones) && forall id | id in zones && ReverseNamed(zones[id].name) :: zones[id].reverse
  }

  /** A row lies in a zone, under the ID that spells its zone, type, name and value. */
  ghost predicate Described(zones: map<GoString, Zone>, id: GoString, r: Record) {
    r.id == id && r.ttl > 0 && r.zoneId in zones && id == RecordId(zones[r.zoneId], r)
  }

  /** Section 3.6.2 of RFC 1034 and section 10.1 of RFC 2181, and no duplicates. */
  predicate Compatible(a: Record, b: Record) {
    SameText(a.name, b.name) ==>
      && Kind(a.typ) != "CNAME" && Kind(b.typ) != "CNAME"
      && !(Kind(a.typ) == Kind(b.typ) && SameText(a.value, b.value))
  }

  ghost predicate Forward(s: Store, id: GoString) {
    id in s.records && s.records[id].zoneId in s.zones && !s.zones[s.records[id].zoneId].reverse
  }

  ghost predicate Spelled(s: Store) {
    ZonesOk(s.zones) && forall id | id in s.records :: Described(s.zones, id, s.records[id])
  }

  ghost predicate Tidy(s: Store) {
    && Spelled(s)
    && (forall i, j | Forward(s, i) && Forward(s, j) && i != j && s.records[i].zoneId == s.records[j].zoneId ::
          Compatible(s.records[i], s.records[j]))
  }

  /** The rows of its zone leave room for a row. */
  ghost predicate Fits(s: Store, r: Record) {
    forall id | Forward(s, id) && id != r.id && s.records[id].zoneId == r.zoneId :: Compatible(s.records[id], r)
  }

  lemma RemoveKeepsTidy(s: Store, id: GoString)
    requires Tidy(s)
    ensures Tidy(Remove(s, id))
  {
    var t := Remove(s, id);
    assert forall i :: Forward(t, i) ==> Forward(s, i) && t.records[i] == s.records[i];
  }

  /** Only names, types and values matter to compatibility, and their order does not. */
  lemma CompatibleBothWays(a: Record, b: Record, c: Record)
    requires Compatible(a, b) && c.name == b.name && c.typ == b.typ && c.value == b.value
    ensures Compatible(a, c) && Compatible(c, a)
  {
  }

  lemma UpsertKeepsTidy(s: Store, r: Record)
    requires Tidy(s)
    requires r.zoneId in s.zones ==> r.id == RecordId(s.zones[r.zoneId], r) && (s.zones[r.zoneId].reverse || Fits(s, r))
    ensures Tidy(Upsert(s, r))
  {
    var t := Upsert(s, r);
    if r.zoneId in s.zones {
      assert Described(t.zones, r.id, Normalized(r));
      forall i, j | Forward(t, i) && Forward(t, j) && i != j && t.records[i].zoneId == t.records[j].zoneId
        ensures Compatible(t.records[i], t.records[j])
      {
        if i == r.id || j == r.id {
          var other := if i == r.id then j else i;
          assert Forward(s, other) && t.records[other] == s.records[other];
          CompatibleBothWays(s.records[other], r, Normalized(r));
        } else {
          assert Forward(s, i) && Forward(s, j);
        }
      }
    }
  }

  // ----- identifiers

  lemma ZoneOfId(zones: map<GoString, Zone>, id: GoString)
    requires ZonesOk(zones) && id in zones
    ensures DecodeParts(id, 2) == Decoded([zones[id].serverId, zones[id].name])
  {
    PartsRoundTrip([zones[id].serverId, zones[id].name], 2);
  }

  /** Each row's ID decodes to its own fields. */
  lemma FieldsOfId(zones: map<GoString, Zone>, id: GoString, r: Record)
    requires Described(zones, id, r)
    ensures DecodeParts(id, 5) == Decoded([zones[r.zoneId].serverId, zones[r.zoneId].name, r.typ, r.name, r.value])
  {
    var z := zones[r.zoneId];
    PartsRoundTrip([z.serverId, z.name, r.typ, r.name, r.value], 5);
  }

  lemma RecordIdIsInjective(z: Zone, r: Record, y: Zone, q: Record)
    ensures RecordId(z, r) == RecordId(y, q) <==>
            z.serverId == y.serverId && z.name == y.name && r.typ == q.typ && r.name == q.name && r.value == q.value
  {
    var a, b := [z.serverId, z.name, r.typ, r.name, r.value], [y.serverId, y.name, q.typ, q.name, q.value];
    ResourceIdIsInjective(a, b);
    if a == b {
      assert a[0] == b[0] && a[1] == b[1] && a[2] == b[2] && a[3] == b[3] && a[4] == b[4];
    }
  }

  /** A zone an address belongs to is named in in-addr.arpa. */
  lemma ReverseZoneIsNamed(ip: Ip)
    ensures ReverseNamed(ReverseZone(ip))
  {
    ZoneInAnyCase(ip, ReverseZone(ip));
    NetworkText(ip);
    var name := ReverseZone(ip);
    assert name[0] == Network(ip)[0];
    LastIsNoDot(name);
    assert Trimmed(name, IsDot);
  }

  lemma LastIsNoDot(name: GoString)
    requires name != "" && HasSuffix(ToLower(name), SUFFIX)
    ensures name[|name| - 1] != '.'
  {
    LastOfSuffix(ToLower(name), SUFFIX);
    assert SUFFIX[|SUFFIX| - 1] == 'a';
  }

  /** A PTR row is stored, if at all, in a reverse zone and under the ID that spells its fields. */
  lemma PtrIsDescribed(zones: map<GoString, Zone>, serverId: GoString, zoneName: GoString, r: Record, ptr: Record)
    requires ZonesOk(zones) && PtrRecordForARecord(serverId, zoneName, r) == Parsed(ptr)
    ensures ptr.zoneId in zones ==>
              var z := zones[ptr.zoneId];
              z.reverse && z.serverId == serverId && z.name == IPv4ReverseZone(r.value).value && ptr.id == RecordId(z, ptr)
    ensures ptr.ttl > 0
  {
    if ptr.zoneId in zones {
      var name := IPv4ReverseZone(r.value).value;
      ZoneOfId(zones, ptr.zoneId);
      PartsRoundTrip([serverId, name], 2);
      var z := zones[ptr.zoneId];
      assert [z.serverId, z.name] == [serverId, name];
      assert z.serverId == [z.serverId, z.name][0] && z.name == [z.serverId, z.name][1];
      assert serverId == [serverId, name][0] && name == [serverId, name][1];
      ReverseZoneIsNamed(ParseIPv4(TrimSpace(r.value)).value);
    }
  }

  lemma AddPtrKeepsTidy(s: Store, serverId: GoString, zoneName: GoString, r: Record, ptr: Record)
    requires Tidy(s) && PtrRecordForARecord(serverId, zoneName, r) == Parsed(ptr)
    ensures Tidy(Upsert(s, ptr))
  {
    PtrIsDescribed(s.zones, serverId, zoneName, r, ptr);
    UpsertKeepsTidy(s, ptr);
  }

  // ----- the three operations

  lemma IdentifiedIn(z: Zone, body: Record)
    ensures Identified([z.serverId, z.name], body) == Normalized(body.(id := RecordId(z, body)))
  {
  }

  /** What an accepted create writes. */
  lemma CreateWrites(s: Store, body: Record, ready: bool, reply: AgentReply) returns (record: Record, ptr: Parsed<Record>, add: bool)
    requires body.zoneId in s.zones && reply.Done?
    requires ZonesOk(s.zones) && CreateReady(s, body, ready)
    ensures var z := s.zones[body.zoneId];
            && CreateStep(s, body, ready, reply) == WriteCreate(s, record, ptr, add)
            && record == Normalized(body.(id := RecordId(z, body)))
            && ptr == PtrRecordForARecord(z.serverId, z.name, record)
            && (add <==> !WarnsBefore(s, body, z.serverId) && !reply.warned && IsA(body.typ) && body.createPtr)
  {
    ZoneOfId(s.zones, body.zoneId);
    var z := s.zones[body.zoneId];
    record := Normalized(body.(id := RecordId(z, body)));
    IdentifiedIn(z, body);
    assert DecodeParts(body.zoneId, 2).value == [z.serverId, z.name];
    ptr := PtrRecordForARecord(z.serverId, z.name, record);
    add := !WarnsBefore(s, body, z.serverId) && !reply.warned && IsA(body.typ) && body.createPtr;
  }

  lemma CreateFits(s: Store, body: Record, record: Record)
    requires CreateAllowed(s, body)
    requires record.zoneId == body.zoneId && record.name == body.name && record.typ == body.typ && record.value == body.value
    ensures Fits(s, record)
  {
    forall id | Forward(s, id) && id != record.id && s.records[id].zoneId == record.zoneId
      ensures Compatible(s.records[id], record)
    {
      assert InZone(s, id, body.zoneId);
    }
  }

  lemma WriteCreateKeepsTidy(s: Store, r: Record, ptr: Parsed<Record>, add: bool)
    requires Tidy(s) && r.zoneId in s.zones && r.id == RecordId(s.zones[r.zoneId], r) && Fits(s, r)
    requires ptr == PtrRecordForARecord(s.zones[r.zoneId].serverId, s.zones[r.zoneId].name, r)
    ensures Tidy(WriteCreate(s, r, ptr, add))
  {
    UpsertKeepsTidy(s, r);
    if ptr.Parsed? {
      AddPtrKeepsTidy(Upsert(s, r), s.zones[r.zoneId].serverId, s.zones[r.zoneId].name, r, ptr.value);
    }
  }

  lemma CreateKeepsTidy(s: Store, body: Record, ready: bool, reply: AgentReply)
    requires Tidy(s)
    ensures Tidy(CreateStep(s, body, ready, reply))
  {
    if CreateReady(s, body, ready) && reply.Done? {
      var record, ptr, add := CreateWrites(s, body, ready, reply);
      assert record.id == RecordId(s.zones[body.zoneId], record);
      CreateFits(s, body, record);
      WriteCreateKeepsTidy(s, record, ptr, add);
    }
  }

  lemma DeleteKeepsTidy(s: Store, id: GoString, ready: bool, reply: AgentReply, related: Option<GoString>)
    requires Tidy(s)
    ensures Tidy(DeleteStep(s, id, ready, reply, related))
  {
    WriteDeleteKeepsTidy(s, id, None);
    WriteDeleteKeepsTidy(s, id, related);
  }

  lemma WriteDeleteKeepsTidy(s: Store, id: GoString, related: Option<GoString>)
    requires Tidy(s)
    ensures Tidy(WriteDelete(s, id, related))
  {
    RemoveKeepsTidy(s, id);
    if related.Some? {
      RemoveKeepsTidy(Remove(s, id), related.value);
    }
  }

  /** An edit that gives the row a new ID without being taken for a change of its value. */
  predicate Rekeys(before: Record, value: GoString) {
    SameText(before.value, value) && before.value != value
  }

  lemma UpdatedRow(s: Store, id: GoString, value: GoString, createPtr: Option<bool>) returns (after: Record)
    requires Tidy(s) && id in s.records
    ensures DecodeParts(id, 5).Decoded? && after == Updated(s.records[id], DecodeParts(id, 5).value, value, createPtr)
    ensures var before := s.records[id];
            && after == before.(value := value, createPtr := after.createPtr, id := RecordId(s.zones[before.zoneId], after))
            && (after.id == id <==> value == before.value)
  {
    var before := s.records[id];
    var z := s.zones[before.zoneId];
    FieldsOfId(s.zones, id, before);
    after := Updated(before, DecodeParts(id, 5).value, value, createPtr);
    RecordIdIsInjective(z, before, z, after);
  }

  /** The rows that stay leave room for an allowed update that is no re-key. */
  lemma UpdateFits(s: Store, t: Store, id: GoString, after: Record)
    requires Tidy(s) && Forward(s, id) && UpdateAllowed(s, s.records[id], after) && !Rekeys(s.records[id], after.value)
    requires after == s.records[id].(value := after.value, createPtr := after.createPtr, id := after.id)
    requires after.id == id <==> after.value == s.records[id].value
    requires t.zones == s.zones && forall i :: i in t.records ==> i in s.records && t.records[i] == s.records[i]
    requires after.id == id || id !in t.records
    ensures Fits(t, after)
  {
    var before := s.records[id];
    forall i | Forward(t, i) && i != after.id && t.records[i].zoneId == after.zoneId
      ensures Compatible(t.records[i], after)
    {
      assert Forward(s, i) && i != id;
      assert Compatible(s.records[i], before);
      if after.id != id {
        assert InZone(s, i, before.zoneId) && s.records[i].id == i;
      }
    }
  }

  /** Writing an allowed update, whatever happens to the PTR rows. */
  lemma WriteKeepsTidy(s: Store, id: GoString, after: Record, oldPtr: Parsed<Record>, newPtr: Parsed<Record>,
                       drop: bool, add: bool)
    requires Tidy(s) && id in s.records && UpdateAllowed(s, s.records[id], after)
    requires !s.zones[s.records[id].zoneId].reverse ==> !Rekeys(s.records[id], after.value)
    requires after == s.records[id].(value := after.value, createPtr := after.createPtr, id := RecordId(s.zones[s.records[id].zoneId], after))
    requires after.id == id <==> after.value == s.records[id].value
    requires newPtr == PtrRecordForARecord(s.zones[after.zoneId].serverId, s.zones[after.zoneId].name, after)
    ensures Tidy(WriteUpdate(s, s.records[id], after, oldPtr, newPtr, drop, add))
  {
    var before := s.records[id];
    var s1 := if drop && oldPtr.Parsed? then Remove(s, oldPtr.value.id) else s;
    var s2 := if SameText(before.value, after.value) then s1 else Remove(s1, before.id);
    if drop && oldPtr.Parsed? {
      RemoveKeepsTidy(s, oldPtr.value.id);
    }
    RemoveKeepsTidy(s1, before.id);
    if Forward(s, id) {
      UpdateFits(s, s2, id, after);
    }
    UpsertKeepsTidy(s2, after);
    if newPtr.Parsed? {
      AddPtrKeepsTidy(Upsert(s2, after), s.zones[after.zoneId].serverId, s.zones[after.zoneId].name, after, newPtr.value);
    }
  }

  /** An accepted update: its row is ready and the agent, if asked, has not failed. */
  ghost predicate Accepted(s: Store, id: GoString, text: GoString, createPtr: Option<bool>, ready: bool, reply: AgentReply) {
    && UpdateReady(s, id, TrimSpace(text), createPtr, ready)
    && (!SameText(s.records[id].value, TrimSpace(text)) ==> reply.Done?)
  }

  /** What an accepted update writes. */
  lemma UpdateWrites(s: Store, id: GoString, text: GoString, createPtr: Option<bool>, ready: bool, reply: AgentReply,
                     ptrCreated: bool, ptrDeleted: bool)
    returns (after: Record, oldPtr: Parsed<Record>, newPtr: Parsed<Record>, drop: bool, add: bool)
    requires Tidy(s) && Accepted(s, id, text, createPtr, ready, reply)
    ensures var before := s.records[id];
            var z := s.zones[before.zoneId];
            && UpdateStep(s, id, text, createPtr, ready, reply, ptrCreated, ptrDeleted)
                == WriteUpdate(s, before, after, oldPtr, newPtr, drop, add)
            && after == before.(value := TrimSpace(text), createPtr := after.createPtr, id := RecordId(z, after))
            && (after.id == id <==> after.value == before.value)
            && UpdateAllowed(s, before, after)
            && oldPtr == PtrRecordForARecord(z.serverId, z.name, before)
            && newPtr == PtrRecordForARecord(z.serverId, z.name, after)
            && (drop <==> IsA(before.typ) && before.createPtr && (!SameText(before.value, after.value) || before.createPtr != after.createPtr))
            && (add ==> IsA(before.typ) && after.createPtr && !WarnsBefore(s, after, z.serverId))
            && ((reply.Done? ==> !reply.warned) && ptrCreated && ptrDeleted ==>
                  (add <==> IsA(before.typ) && after.createPtr && !WarnsBefore(s, after, z.serverId)))
  {
    var before := s.records[id];
    var z := s.zones[before.zoneId];
    FieldsOfId(s.zones, id, before);
    after := UpdatedRow(s, id, TrimSpace(text), createPtr);
    var d := UpdateDecision(s, id, text, createPtr, ready, reply, ptrCreated, ptrDeleted);
    oldPtr, newPtr, drop, add := d.oldPtr, d.newPtr, d.dropPtr, d.addPtr;
  }

  lemma UpdateKeepsTidy(s: Store, id: GoString, text: GoString, createPtr: Option<bool>, ready: bool, reply: AgentReply,
                        ptrCreated: bool, ptrDeleted: bool)
    requires Tidy(s) && (Forward(s, id) ==> !Rekeys(s.records[id], TrimSpace(text)))
    ensures Tidy(UpdateStep(s, id, text, createPtr, ready, reply, ptrCreated, ptrDeleted))
  {
    if Accepted(s, id, text, createPtr, ready, reply) {
      var after, oldPtr, newPtr, drop, add := UpdateWrites(s, id, text, createPtr, ready, reply, ptrCreated, ptrDeleted);
      WriteKeepsTidy(s, id, after, oldPtr, newPtr, drop, add);
    }
  }

  /** The row of a forward zone survives changes to PTR rows. */
  lemma PtrIsElsewhere(s: Store, id: GoString, serverId: GoString, zoneName: GoString, r: Record)
    requires Spelled(s) && Forward(s, id)
    ensures PtrRecordForARecord(serverId, zoneName, r).Parsed? ==>
              PtrRecordForARecord(serverId, zoneName, r).value.id != id
  {
    var ptr := PtrRecordForARecord(serverId, zoneName, r);
    if ptr.Parsed? {
      var name := IPv4ReverseZone(r.value).value;
      var z := s.zones[s.records[id].zoneId];
      ReverseZoneIsNamed(ParseIPv4(TrimSpace(r.value)).value);
      RecordIdIsInjective(z, s.records[id], Zone(serverId, name, true), ptr.value);
    }
  }

  /** An accepted update of a row of a forward zone keeps the rules exactly when it is no re-key: a
      re-key leaves the old row beside the new one. */
  lemma UpdateKeepsTidyExactly(s: Store, id: GoString, text: GoString, createPtr: Option<bool>, ready: bool,
                               reply: AgentReply, ptrCreated: bool, ptrDeleted: bool)
    requires Tidy(s) && Forward(s, id) && Accepted(s, id, text, createPtr, ready, reply)
    ensures Tidy(UpdateStep(s, id, text, createPtr, ready, reply, ptrCreated, ptrDeleted)) <==>
            !Rekeys(s.records[id], TrimSpace(text))
  {
    var before := s.records[id];
    if Rekeys(before, TrimSpace(text)) {
      var after, oldPtr, newPtr, drop, add := UpdateWrites(s, id, text, createPtr, ready, reply, ptrCreated, ptrDeleted);
      RekeyLeavesBoth(s, id, after, oldPtr, newPtr, drop, add);
    } else {
      UpdateKeepsTidy(s, id, text, createPtr, ready, reply, ptrCreated, ptrDeleted);
    }
  }

  lemma RekeyLeavesBoth(s: Store, id: GoString, after: Record, oldPtr: Parsed<Record>, newPtr: Parsed<Record>,
                        drop: bool, add: bool)
    requires Tidy(s) && Forward(s, id) && Rekeys(s.records[id], after.value)
    requires var before := s.records[id];
             var z := s.zones[before.zoneId];
             && after == before.(value := after.value, createPtr := after.createPtr, id := RecordId(z, after))
             && after.id != id
             && oldPtr == PtrRecordForARecord(z.serverId, z.name, before)
             && newPtr == PtrRecordForARecord(z.serverId, z.name, after)
    ensures !Tidy(WriteUpdate(s, s.records[id], after, oldPtr, newPtr, drop, add))
  {
    var before := s.records[id];
    var z := s.zones[before.zoneId];
    PtrIsElsewhere(s, id, z.serverId, z.name, before);
    PtrIsElsewhere(s, id, z.serverId, z.name, after);
    if newPtr.Parsed? {
      NewPtrIsElsewhere(z, after, newPtr.value);
    }
    BothRowsStay(s, before, after, oldPtr, newPtr, drop, add);
    BothRowsClash(WriteUpdate(s, before, after, oldPtr, newPtr, drop, add), id, after.id);
  }

  lemma BothRowsStay(s: Store, before: Record, after: Record, oldPtr: Parsed<Record>, newPtr: Parsed<Record>, drop: bool, add: bool)
    requires before.id in s.records && s.records[before.id] == before && after.zoneId in s.zones
    requires SameText(before.value, after.value) && after.id != before.id
    requires oldPtr.Parsed? ==> oldPtr.value.id != before.id
    requires newPtr.Parsed? ==> newPtr.value.id != before.id && newPtr.value.id != after.id
    ensures var t := WriteUpdate(s, before, after, oldPtr, newPtr, drop, add);
            && t.zones == s.zones
            && before.id in t.records && t.records[before.id] == before
            && after.id in t.records && t.records[after.id] == Normalized(after)
  {
  }

  lemma NewPtrIsElsewhere(z: Zone, r: Record, ptr: Record)
    requires PtrRecordForARecord(z.serverId, z.name, r) == Parsed(ptr) && !ReverseNamed(z.name)
    ensures ptr.id != RecordId(z, r)
  {
    ReverseZoneIsNamed(ParseIPv4(TrimSpace(r.value)).value);
    RecordIdIsInjective(z, r, Zone(z.serverId, IPv4ReverseZone(r.value).value, true), ptr);
  }

  lemma BothRowsClash(s: Store, i: GoString, j: GoString)
    requires Forward(s, i) && Forward(s, j) && i != j && s.records[i].zoneId == s.records[j].zoneId
    requires SameText(s.records[i].name, s.records[j].name) && Kind(s.records[i].typ) == Kind(s.records[j].typ)
    requires SameText(s.records[i].value, s.records[j].value)
    ensures !Tidy(s)
  {
    assert !Compatible(s.records[i], s.records[j]);
  }

  /** Every re-key is accepted: the early return lets it pass. */
  lemma RekeysAreAccepted(s: Store, id: GoString, text: GoString)
    requires Tidy(s) && id in s.records && Manageable(s.zones[s.records[id].zoneId].name, s.records[id].typ)
    requires TrimSpace(text) != "" && SameText(s.records[id].value, TrimSpace(text))
    ensures Accepted(s, id, text, None, true, Done(false))
  {
    FieldsOfId(s.zones, id, s.records[id]);
    var after := UpdatedRow(s, id, TrimSpace(text), None);
  }

  lemma OneRowIsTidy(zoneId: GoString, z: Zone, r: Record)
    requires zoneId == DNSZoneID(z.serverId, z.name) && !ReverseNamed(z.name)
    requires r.zoneId == zoneId && r.ttl > 0 && r.id == RecordId(z, r)
    ensures Tidy(Store(map[zoneId := z], map[r.id := r]))
  {
    assert Described(map[zoneId := z], r.id, r);
  }

  /** The value "X." of a CNAME edited to "x.": accepted, and then two rows say the same. */
  lemma RekeyExample() returns (s: Store, id: GoString)
    ensures Tidy(s) && Forward(s, id) && Accepted(s, id, "x.", None, true, Done(false))
    ensures !Tidy(UpdateStep(s, id, "x.", None, true, Done(false), true, true))
  {
    var z, zoneId := Zone("s", "z", false), DNSZoneID("s", "z");
    id := DNSRecordID("s", "z", "CNAME", "w", "X.");
    var r := Record(id, zoneId, "w", "CNAME", "X.", 300, false);
    s := Store(map[zoneId := z], map[id := r]);
    ZoneOfExample();
    CaseOfExample();
    OneRowIsTidy(zoneId, z, r);
    RekeysAreAccepted(s, id, "x.");
    UpdateKeepsTidyExactly(s, id, "x.", None, true, Done(false), true, true);
  }

  lemma ZoneOfExample()
    ensures !ReverseNamed("z")
  {
    assert TrimDots(TrimSpace("z")) == "z";
  }

  lemma CaseOfExample()
    ensures TrimSpace("x.") == "x." && SameText("X.", "x.") && Kind("CNAME") == "CNAME"
  {
    assert Trimmed("x.", IsSpace) && Trimmed("X.", IsSpace) && Trimmed("CNAME", IsSpace);
    assert ToLower("X.") == "x." == ToLower("x.");
    assert ToUpper("CNAME") == "CNAME";
  }

  // ----- runs

  /** No update of a run is a re-key in a forward zone. */
  ghost predicate NoRekeys(s: Store, requests: seq<Request>)
    decreases |requests|
  {
    requests != [] ==>
      && (requests[0].Update? && Forward(s, requests[0].id) ==> !Rekeys(s.records[requests[0].id], TrimSpace(requests[0].value)))
      && NoRekeys(Step(s, requests[0]), requests[1..])
  }

  /** Over every run, whatever the agent answers and whichever related rows deletes find. */
  lemma {:induction false} RunKeepsTidy(s: Store, requests: seq<Request>)
    requires Tidy(s) && NoRekeys(s, requests)
    ensures Tidy(Run(s, requests))
    decreases |requests|
  {
    if requests != [] {
      StepKeepsTidy(s, requests[0]);
      RunKeepsTidy(Step(s, requests[0]), requests[1..]);
    }
  }

  lemma StepKeepsTidy(s: Store, q: Request)
    requires Tidy(s) && (q.Update? && Forward(s, q.id) ==> !Rekeys(s.records[q.id], TrimSpace(q.value)))
    ensures Tidy(Step(s, q))
  {
    match q
    case Create(body, ready, reply) =>
      CreateKeepsTidy(s, body, ready, reply);
    case Update(id, text, createPtr, ready, reply, ptrCreated, ptrDeleted) =>
      UpdateKeepsTidy(s, id, text, createPtr, ready, reply, ptrCreated, ptrDeleted);
    case Delete(id, ready, reply, related) =>
      DeleteKeepsTidy(s, id, ready, reply, related);
  }
}
