/** Which requests the handlers accept, and what the tables hold afterwards, row by row and field by field. */
module DnsOutcomes {
  import opened Options
  import opened Text
  import opened Ipv4
  import opened DnsNames
  import opened PtrNames
  import opened ResourceIds
  import opened DnsRecords
  import opened DnsZoneRules
  import opened DnsPtrNames
  import opened DnsPairing
  import opened DnsPairingRuns

  // ----- which records may stand in a zone

  /** Kinds are the same when the types are, case and outer white space aside. */
  lemma SameKinds(a: GoString, b: GoString)
    ensures Kind(a) == Kind(b) <==> SameText(a, b)
  {
    UpperAndLowerAgree(TrimSpace(a), TrimSpace(b));
  }

  /** A record clashes with a row exactly when the two may not stand side by side. */
  lemma ClashesExactly(row: Record, body: Record)
    ensures CreateClash(row, body) <==> !Compatible(row, body)
  {
  }

  /** A value of a record: a host name for a CNAME, an address for an A, anything else otherwise. */
  ghost predicate GoodValue(typ: GoString, value: GoString) {
    if Kind(typ) == "CNAME" then ValidHostName(TrimSpace(value))
    else if Kind(typ) == "A" then ParseIPv4(TrimSpace(value)).Parsed?
    else true
  }

  lemma GoodValues(typ: GoString, value: GoString)
    ensures ValidValue(typ, value) <==> GoodValue(typ, value)
  {
  }

  /** Every other row of the zone may stand beside a row with these texts. */
  ghost predicate RoomFor(s: Store, zoneId: GoString, except: GoString, r: Record) {
    forall id | id in s.records && s.records[id].zoneId == zoneId && id != except :: Compatible(s.records[id], r)
  }

  lemma AllRowsRoom(s: Store, zoneId: GoString, r: Record)
    ensures (forall id | id in s.records && s.records[id].zoneId == zoneId :: Compatible(s.records[id], r)) <==>
            (forall id | InZone(s, id, zoneId) :: !CreateClash(s.records[id], r))
  {
    forall id | id in s.records ensures CreateClash(s.records[id], r) <==> !Compatible(s.records[id], r) {
      ClashesExactly(s.records[id], r);
    }
    if forall id | InZone(s, id, zoneId) :: !CreateClash(s.records[id], r) {
      forall id | id in s.records && s.records[id].zoneId == zoneId ensures Compatible(s.records[id], r) {
        assert InZone(s, id, zoneId);
      }
    }
  }

  /** A create in a stored forward zone, with a good value, is allowed exactly when every row of the zone
      may stand beside it. */
  lemma CreateAllowedExactly(s: Store, body: Record)
    ensures CreateAllowed(s, body) <==>
            && body.zoneId in s.zones && !s.zones[body.zoneId].reverse && GoodValue(body.typ, body.value)
            && forall id | id in s.records && s.records[id].zoneId == body.zoneId :: Compatible(s.records[id], body)
  {
    GoodValues(body.typ, body.value);
    AllRowsRoom(s, body.zoneId, body);
  }

  /** Beside the row itself, no other row of its name is a CNAME, if the row is one. */
  lemma OnlyCname(s: Store, id: GoString, i: GoString)
    requires Tidy(s) && Forward(s, id) && i in s.records && s.records[i].zoneId == s.records[id].zoneId && i != id
    requires Kind(s.records[id].typ) == "CNAME"
    ensures !SameText(s.records[i].name, s.records[id].name)
  {
    assert Forward(s, i) && Compatible(s.records[i], s.records[id]);
  }

  lemma UpdateClashesExactly(s: Store, id: GoString, i: GoString, value: GoString)
    requires id in s.records && i in s.records && s.records[i].zoneId == s.records[id].zoneId && i != id
    requires Kind(s.records[id].typ) == "CNAME" ==> Tidy(s) && Forward(s, id)
    ensures UpdateClash(s.records[i], s.records[id], value) <==> !Compatible(s.records[i], s.records[id].(value := value))
  {
    if Kind(s.records[id].typ) == "CNAME" {
      OnlyCname(s, id, i);
    }
  }

  lemma OtherRowsRoom(s: Store, id: GoString, value: GoString)
    requires Spelled(s) && id in s.records && (Kind(s.records[id].typ) == "CNAME" ==> Tidy(s) && Forward(s, id))
    ensures RoomFor(s, s.records[id].zoneId, id, s.records[id].(value := value)) <==>
            (forall i | InZone(s, i, s.records[id].zoneId) && s.records[i].id != s.records[id].id ::
               !UpdateClash(s.records[i], s.records[id], value))
  {
    var before := s.records[id];
    assert Described(s.zones, id, before);
    forall i | i in s.records && s.records[i].zoneId == before.zoneId && i != id
      ensures InZone(s, i, before.zoneId) && s.records[i].id == i
      ensures UpdateClash(s.records[i], before, value) <==> !Compatible(s.records[i], before.(value := value))
    {
      assert Described(s.zones, i, s.records[i]);
      UpdateClashesExactly(s, id, i, value);
    }
    if RoomFor(s, before.zoneId, id, before.(value := value)) {
      forall i | InZone(s, i, before.zoneId) && s.records[i].id != before.id ensures !UpdateClash(s.records[i], before, value) {
        assert Described(s.zones, i, s.records[i]);
      }
    }
  }

  /** An update is allowed exactly when neither value nor PTR flag changes, case and outer white space aside,
      or its value is good and every other row of the zone may stand beside the row with the new value. */
  lemma UpdateAllowedExactly(s: Store, id: GoString, after: Record)
    requires Spelled(s) && id in s.records && (Kind(s.records[id].typ) == "CNAME" ==> Tidy(s) && Forward(s, id))
    ensures var before := s.records[id];
            UpdateAllowed(s, before, after) <==>
            || (SameText(before.value, after.value) && before.createPtr == after.createPtr)
            || (&& GoodValue(before.typ, after.value)
                && (Kind(before.typ) == "PTR" ==> ValidHostName(TrimSpace(after.value)))
                && RoomFor(s, before.zoneId, id, before.(value := after.value)))
  {
    GoodValues(s.records[id].typ, after.value);
    OtherRowsRoom(s, id, after.value);
  }

  // ----- PTR rows

  /** The PTR row of an A record, by its fields. */
  function PtrRowFor(z: Zone, name: GoString, address: GoString, ip: Ip, ttl: int): Record {
    var pointer, host := address + ".", PtrRecordFQDN(z.name, name);
    Record(DNSRecordID(z.serverId, ReverseZone(ip), "PTR", pointer, host), DNSZoneID(z.serverId, ReverseZone(ip)),
           pointer, "PTR", host, ttl, false)
  }

  function PtrRowOf(z: Zone, r: Record): Record
    requires ParseIPv4(TrimSpace(r.value)).Parsed?
  {
    PtrRowFor(z, r.name, TrimSpace(r.value), ParseIPv4(TrimSpace(r.value)).value, r.ttl)
  }

  /** A record that has a PTR row and a zone for it: it is an A record that asks, for an address whose
      reverse zone is stored. */
  ghost predicate CanPoint(s: Store, z: Zone, r: Record) {
    && EqualFold(r.typ, "A") && r.createPtr && ParseIPv4(TrimSpace(r.value)).Parsed?
    && DNSZoneID(z.serverId, ReverseZone(ParseIPv4(TrimSpace(r.value)).value)) in s.zones
  }

  lemma PtrRowIs(z: Zone, r: Record)
    requires ParseIPv4(TrimSpace(r.value)).Parsed? && r.ttl > 0
    ensures PtrRecordForARecord(z.serverId, z.name, r) ==
            Parsed(PtrRowOf(z, r))
  {
  }

  /** A record that can point is not warned about. */
  lemma CanPointIsNotWarned(s: Store, z: Zone, r: Record)
    requires ZonesOk(s.zones) && CanPoint(s, z, r)
    ensures !WarnsBefore(s, r, z.serverId)
  {
    var ip := ParseIPv4(TrimSpace(r.value)).value;
    var ptr := PtrRecordForARecord(z.serverId, z.name, r).value;
    PtrIsDescribed(s.zones, z.serverId, z.name, r, ptr);
    assert ReverseZoneExists(s, z.serverId, ReverseZone(ip));
  }

  /** Whether a record that asks for a PTR row has no stored reverse zone of the server to put it in. */
  lemma WarnsExactly(s: Store, r: Record, serverId: GoString)
    ensures WarnsBefore(s, r, serverId) <==>
            && ToLower(TrimSpace(r.typ)) == "a" && r.createPtr
            && (var ip := ParseIPv4(TrimSpace(r.value));
                ip.Parsed? ==> forall z | z in s.zones.Values && z.serverId == serverId && z.reverse :: !EqualFold(z.name, ReverseZone(ip.value)))
  {
    var ip := ParseIPv4(TrimSpace(r.value));
    assert ToLower("A") == "a";
    if ip.Parsed? {
      assert IPv4ReverseZone(r.value) == Parsed(ReverseZone(ip.value));
      NoReverseZone(s, serverId, ReverseZone(ip.value));
    }
  }

  lemma NoReverseZone(s: Store, serverId: GoString, name: GoString)
    ensures !ReverseZoneExists(s, serverId, name) <==>
            forall z | z in s.zones.Values && z.serverId == serverId && z.reverse :: !EqualFold(z.name, name)
  {
    if id :| id in s.zones && s.zones[id].serverId == serverId && EqualFold(s.zones[id].name, name) && s.zones[id].reverse {
      assert s.zones[id] in s.zones.Values;
    }
  }

  /** A zone is named as a reverse one when its name, without white space and dots around it, ends as the
      names of IPv4 reverse zones do, in either case. */
  lemma ReverseNamedExactly(zoneName: GoString)
    ensures var name := TrimDots(TrimSpace(zoneName));
            ReverseNamed(zoneName) <==> |name| >= 13 && EqualFold(name[|name| - 13..], ".in-addr.arpa")
  {
    SuffixIsLower();
    SuffixFolds(TrimDots(TrimSpace(zoneName)), SUFFIX);
  }

  lemma SuffixIsLower()
    ensures |SUFFIX| == 13 && ToLower(SUFFIX) == SUFFIX
  {
    assert forall i | 0 <= i < |SUFFIX| :: LowerByte(SUFFIX[i]) == SUFFIX[i];
  }

  lemma {:induction false} SuffixFolds(s: GoString, suffix: GoString)
    requires ToLower(suffix) == suffix
    ensures HasSuffix(ToLower(s), suffix) <==> |s| >= |suffix| && EqualFold(s[|s| - |suffix|..], suffix)
  {
    if |s| >= |suffix| {
      var i := |s| - |suffix|;
      LowerTail(s, i);
      assert HasSuffix(ToLower(s), suffix) <==> ToLower(s)[i..] == suffix;
    }
  }

  lemma {:induction false} LowerTail(s: GoString, i: nat)
    requires i <= |s|
    ensures ToLower(s)[i..] == ToLower(s[i..])
  {
  }

  // ----- creates

  /** The row of a record with its ID and its TTL. */
  function RowFor(z: Zone, body: Record): Record {
    Record(DNSRecordID(z.serverId, z.name, body.typ, body.name, body.value), body.zoneId, body.name, body.typ, body.value,
           if body.ttl <= 0 then 3600 else body.ttl, body.createPtr)
  }

  /** A create that is complete, may stand in its stored forward zone, and is done by a ready agent. */
  ghost predicate CreateTaken(s: Store, body: Record, ready: bool, reply: AgentReply) {
    && TrimSpace(body.name) != "" && TrimSpace(body.typ) != "" && TrimSpace(body.value) != "" && ready && reply.Done?
    && body.zoneId in s.zones && !s.zones[body.zoneId].reverse && GoodValue(body.typ, body.value)
    && forall id | id in s.records && s.records[id].zoneId == body.zoneId :: Compatible(s.records[id], body)
  }

  lemma CreateTakenExactly(s: Store, body: Record, ready: bool, reply: AgentReply)
    requires ZonesOk(s.zones)
    ensures CreateTaken(s, body, ready, reply) <==> CreateReady(s, body, ready) && reply.Done?
  {
    CreateAllowedExactly(s, body);
    if body.zoneId in s.zones {
      var z := s.zones[body.zoneId];
      ZoneOfId(s.zones, body.zoneId);
      ZoneIdIsNotBlank(z.serverId, z.name);
    }
  }

  /** The same row, or none, under an ID. */
  ghost predicate SameAt(s: Store, t: Store, i: GoString) {
    (i in t.records <==> i in s.records) && (i in s.records ==> t.records[i] == s.records[i])
  }

  ghost predicate Holds(t: Store, r: Record) {
    r.id in t.records && t.records[r.id] == r
  }

  lemma WrittenRows(s: Store, r: Record, ptr: Parsed<Record>, add: bool, i: GoString)
    requires r.zoneId in s.zones && r.ttl > 0 && (ptr.Parsed? ==> ptr.value.ttl > 0 && ptr.value.id != r.id)
    ensures var t, pointed := WriteCreate(s, r, ptr, add), add && ptr.Parsed? && ptr.value.zoneId in s.zones;
            && t.zones == s.zones && Holds(t, r) && (pointed ==> Holds(t, ptr.value))
            && (i != r.id && !(pointed && i == ptr.value.id) ==> SameAt(s, t, i))
  {
  }

  /** After a create that is taken, its row is there with the fields of the request, its PTR row is there if
      it can point and nothing warned, and every other row is as it was; otherwise nothing changes. */
  lemma CreateOutcome(s: Store, body: Record, ready: bool, reply: AgentReply, i: GoString)
    requires Tidy(s)
    ensures !CreateTaken(s, body, ready, reply) ==> CreateStep(s, body, ready, reply) == s
    ensures CreateTaken(s, body, ready, reply) ==>
              var t, z := CreateStep(s, body, ready, reply), s.zones[body.zoneId];
              var r := RowFor(z, body);
              var pointed := CanPoint(s, z, r) && !reply.warned;
              && t.zones == s.zones && Holds(t, r)
              && (pointed ==> Holds(t, PtrRowOf(z, r)))
              && (i != r.id && !(pointed && i == PtrRowOf(z, r).id) ==> SameAt(s, t, i))
  {
    CreateTakenExactly(s, body, ready, reply);
    if CreateTaken(s, body, ready, reply) {
      var z := s.zones[body.zoneId];
      var record, ptr, add := CreateWrites(s, body, ready, reply);
      PointsExactly(s, z, record, reply.warned, ptr, add);
      WrittenRows(s, record, ptr, add, i);
    }
  }

  /** When a row that asks gets its PTR row. */
  lemma PointsExactly(s: Store, z: Zone, r: Record, warned: bool, ptr: Parsed<Record>, add: bool)
    requires Spelled(s) && r.zoneId in s.zones && z == s.zones[r.zoneId] && !z.reverse && r.ttl > 0
    requires r.id == RecordId(z, r) && ptr == PtrRecordForARecord(z.serverId, z.name, r)
    requires add <==> !WarnsBefore(s, r, z.serverId) && !warned && EqualFold(r.typ, "A") && r.createPtr
    ensures (add && ptr.Parsed? && ptr.value.zoneId in s.zones) <==> CanPoint(s, z, r) && !warned
    ensures ptr.Parsed? <==> ParseIPv4(TrimSpace(r.value)).Parsed?
    ensures ptr.Parsed? ==> ptr.value.ttl > 0 && ptr.value.id != r.id
    ensures ptr.Parsed? ==> ptr.value == PtrRowOf(z, r)
  {
    if ptr.Parsed? {
      PtrRowIs(z, r);
      NewPtrIsElsewhere(z, r, ptr.value);
    }
    if CanPoint(s, z, r) {
      CanPointIsNotWarned(s, z, r);
    }
  }

  // ----- updates

  /** The flag a row gets: the one asked for, if there is one and the row is an address record. */
  function Flag(before: Record, createPtr: Option<bool>): bool {
    if createPtr.Some? && (EqualFold(before.typ, "A") || EqualFold(before.typ, "AAAA")) then createPtr.value else before.createPtr
  }

  /** The row with its new value and flag, under the ID that spells it. */
  function EditedRow(z: Zone, before: Record, value: GoString, createPtr: Option<bool>): Record {
    Record(DNSRecordID(z.serverId, z.name, before.typ, before.name, value), before.zoneId, before.name, before.typ, value,
           before.ttl, Flag(before, createPtr))
  }

  /** Another row of the same name neither says the same nor is, alone of the two, a CNAME. */
  predicate LeavesRoom(row: Record, before: Record, value: GoString) {
    SameText(row.name, before.name) ==>
      && (Kind(row.typ) == "CNAME" <==> Kind(before.typ) == "CNAME")
      && (Kind(row.typ) == Kind(before.typ) ==> !SameText(row.value, value))
  }

  ghost predicate AllLeaveRoom(s: Store, id: GoString, value: GoString)
    requires id in s.records
  {
    forall i | i in s.records && i != id && s.records[i].zoneId == s.records[id].zoneId :: LeavesRoom(s.records[i], s.records[id], value)
  }

  /** Nothing keeps the row from its new value and flag: they are the old ones, case and outer white space
      aside, or the value is good and every other row of the zone leaves room for it. */
  ghost predicate MayBecome(s: Store, id: GoString, value: GoString, createPtr: bool)
    requires id in s.records
  {
    var before := s.records[id];
    || (SameText(before.value, value) && createPtr == before.createPtr)
    || (&& GoodValue(before.typ, value)
        && (Kind(before.typ) == "PTR" ==> ValidHostName(TrimSpace(value)))
        && AllLeaveRoom(s, id, value))
  }

  /** Address and CNAME rows of zones named as forward ones, and PTR rows of zones named as reverse ones. */
  predicate Managed(zoneName: GoString, typ: GoString) {
    if ReverseNamed(zoneName) then Kind(typ) == "PTR" else Kind(typ) == "A" || Kind(typ) == "CNAME"
  }

  /** An update of a stored row that its zone manages, that nothing keeps from its value, and that is done by
      a ready agent if it has to be asked. */
  ghost predicate UpdateTaken(s: Store, id: GoString, value: GoString, createPtr: Option<bool>, ready: bool, reply: AgentReply) {
    && id in s.records && s.records[id].zoneId in s.zones && value != "" && ready
    && Managed(s.zones[s.records[id].zoneId].name, s.records[id].typ)
    && (!SameText(s.records[id].value, value) ==> reply.Done?)
    && MayBecome(s, id, value, Flag(s.records[id], createPtr))
  }

  ghost predicate NoneClashes(s: Store, id: GoString, value: GoString)
    requires id in s.records
  {
    forall i | InZone(s, i, s.records[id].zoneId) && s.records[i].id != s.records[id].id :: !UpdateClash(s.records[i], s.records[id], value)
  }

  lemma LeavesRoomExactly(s: Store, id: GoString, value: GoString)
    requires Spelled(s) && id in s.records
    ensures AllLeaveRoom(s, id, value) <==> NoneClashes(s, id, value)
  {
    var before := s.records[id];
    assert Described(s.zones, id, before);
    forall i | i in s.records
      ensures s.records[i].id == i && (LeavesRoom(s.records[i], before, value) <==> !UpdateClash(s.records[i], before, value))
    {
      assert Described(s.zones, i, s.records[i]);
    }
    if NoneClashes(s, id, value) {
      forall i | i in s.records && i != id && s.records[i].zoneId == before.zoneId ensures LeavesRoom(s.records[i], before, value) {
        assert InZone(s, i, before.zoneId);
      }
    }
  }

  lemma StoredParts(s: Store, id: GoString)
    requires Spelled(s) && id in s.records
    ensures var r, z := s.records[id], s.zones[s.records[id].zoneId];
            r.zoneId in s.zones && DecodeParts(id, 5) == Decoded([z.serverId, z.name, r.typ, r.name, r.value])
  {
    assert Described(s.zones, id, s.records[id]);
    FieldsOfId(s.zones, id, s.records[id]);
  }

  lemma UpdatedIs(s: Store, id: GoString, value: GoString, createPtr: Option<bool>)
    requires Spelled(s) && id in s.records
    ensures var before, z := s.records[id], s.zones[s.records[id].zoneId];
            && DecodeParts(id, 5) == Decoded([z.serverId, z.name, before.typ, before.name, before.value])
            && Updated(before, DecodeParts(id, 5).value, value, createPtr) == EditedRow(z, before, value, createPtr)
  {
    StoredParts(s, id);
  }

  lemma MayBecomeExactly(s: Store, id: GoString, after: Record)
    requires id in s.records && (AllLeaveRoom(s, id, after.value) <==> NoneClashes(s, id, after.value))
    ensures UpdateAllowed(s, s.records[id], after) <==> MayBecome(s, id, after.value, after.createPtr)
  {
    GoodValues(s.records[id].typ, after.value);
    assert UpdateAllowed(s, s.records[id], after) <==>
           || (SameText(s.records[id].value, after.value) && s.records[id].createPtr == after.createPtr)
           || (&& ValidValue(s.records[id].typ, after.value)
               && (Kind(s.records[id].typ) == "PTR" ==> ValidHostName(TrimSpace(after.value)))
               && NoneClashes(s, id, after.value));
  }

  lemma UpdateTakenExactly(s: Store, id: GoString, text: GoString, createPtr: Option<bool>, ready: bool, reply: AgentReply)
    requires Spelled(s)
    ensures UpdateTaken(s, id, TrimSpace(text), createPtr, ready, reply) <==> Accepted(s, id, text, createPtr, ready, reply)
  {
    if id in s.records {
      assert Described(s.zones, id, s.records[id]);
      UpdatedIs(s, id, TrimSpace(text), createPtr);
      LeavesRoomExactly(s, id, TrimSpace(text));
      MayBecomeExactly(s, id, EditedRow(s.zones[s.records[id].zoneId], s.records[id], TrimSpace(text), createPtr));
    }
  }

  lemma EditedRows(s: Store, before: Record, after: Record, oldPtr: Parsed<Record>, newPtr: Parsed<Record>, drop: bool, add: bool, i: GoString)
    requires after.zoneId in s.zones && after.ttl > 0
    requires add && newPtr.Parsed? && newPtr.value.zoneId in s.zones ==>
               newPtr.value.ttl > 0 && newPtr.value.id != after.id && newPtr.value.id != before.id
    ensures var t := WriteUpdate(s, before, after, oldPtr, newPtr, drop, add);
            var changed, dropped := !SameText(before.value, after.value), drop && oldPtr.Parsed?;
            var pointed := add && newPtr.Parsed? && newPtr.value.zoneId in s.zones;
            && t.zones == s.zones && Holds(t, after) && (pointed ==> Holds(t, newPtr.value))
            && (changed && before.id != after.id ==> before.id !in t.records)
            && (dropped && oldPtr.value.id != after.id && !(pointed && oldPtr.value.id == newPtr.value.id) ==> oldPtr.value.id !in t.records)
            && (i != after.id && !(changed && i == before.id) && !(dropped && i == oldPtr.value.id) && !(pointed && i == newPtr.value.id)
                ==> SameAt(s, t, i))
  {
  }

  /** The row's old PTR row goes: it had one, and value or flag changes. */
  predicate DropsPtr(before: Record, after: Record) {
    && EqualFold(before.typ, "A") && before.createPtr && ParseIPv4(TrimSpace(before.value)).Parsed?
    && (!SameText(before.value, after.value) || !after.createPtr)
  }

  /** The row's new PTR row comes: it can point, and the agent has not warned. */
  ghost predicate GetsPtr(s: Store, z: Zone, before: Record, after: Record, reply: AgentReply, ptrCreated: bool) {
    && CanPoint(s, z, after)
    && (if !SameText(before.value, after.value) then reply.Done? && !reply.warned else before.createPtr || ptrCreated)
  }

  /** What is decided for an update that is taken. */
  lemma DecisionIs(s: Store, id: GoString, text: GoString, createPtr: Option<bool>, ready: bool, reply: AgentReply,
                   ptrCreated: bool, ptrDeleted: bool)
    requires Spelled(s) && UpdateTaken(s, id, TrimSpace(text), createPtr, ready, reply)
    ensures var before, z := s.records[id], s.zones[s.records[id].zoneId];
            var after := EditedRow(z, before, TrimSpace(text), createPtr);
            var d := UpdateDecision(s, id, text, createPtr, ready, reply, ptrCreated, ptrDeleted);
            && d.Rewrite? && d.before == before && d.after == after
            && d.oldPtr == PtrRecordForARecord(z.serverId, z.name, before)
            && d.newPtr == PtrRecordForARecord(z.serverId, z.name, after)
            && (d.dropPtr && d.oldPtr.Parsed? <==> DropsPtr(before, after))
            && (d.addPtr && d.newPtr.Parsed? && d.newPtr.value.zoneId in s.zones <==> GetsPtr(s, z, before, after, reply, ptrCreated))
  {
    var before, z := s.records[id], s.zones[s.records[id].zoneId];
    var after := EditedRow(z, before, TrimSpace(text), createPtr);
    UpdateTakenExactly(s, id, text, createPtr, ready, reply);
    UpdatedIs(s, id, TrimSpace(text), createPtr);
    assert Described(s.zones, id, before);
    if ParseIPv4(TrimSpace(after.value)).Parsed? {
      PtrRowIs(z, after);
    }
    if CanPoint(s, z, after) {
      CanPointIsNotWarned(s, z, after);
    }
  }

  /** The PTR rows of a row are elsewhere than the row and its successor. */
  lemma PtrRowsApart(s: Store, z: Zone, r: Record, q: Record)
    requires ZonesOk(s.zones) && z in s.zones.Values && EqualFold(r.typ, "A") && r.id == RecordId(z, r)
    requires ParseIPv4(TrimSpace(q.value)).Parsed? && q.ttl > 0
    ensures PtrRowOf(z, q).id != r.id
  {
    var ptr := PtrRowOf(z, q);
    RecordIdIsInjective(z, r, Zone(z.serverId, ReverseZone(ParseIPv4(TrimSpace(q.value)).value), true), ptr);
    assert |r.typ| == 1 && |ptr.typ| == 3 by {
      assert ToLower("A") == "a";
    }
  }

  lemma PtrRowsDiffer(z: Zone, r: Record, q: Record)
    requires ParseIPv4(TrimSpace(r.value)).Parsed? && ParseIPv4(TrimSpace(q.value)).Parsed?
    requires !SameText(r.value, q.value)
    ensures PtrRowOf(z, r).id != PtrRowOf(z, q).id
  {
    var a, b := PtrRowOf(z, r), PtrRowOf(z, q);
    RecordIdIsInjective(Zone(z.serverId, ReverseZone(ParseIPv4(TrimSpace(r.value)).value), true), a,
                        Zone(z.serverId, ReverseZone(ParseIPv4(TrimSpace(q.value)).value), true), b);
    SameBeforeDot(TrimSpace(r.value), TrimSpace(q.value));
  }

  ghost predicate UpdateLeaves(s: Store, t: Store, z: Zone, before: Record, after: Record, pointed: bool, i: GoString)
    requires pointed ==> ParseIPv4(TrimSpace(after.value)).Parsed?
  {
    var changed := !SameText(before.value, after.value);
    && t.zones == s.zones && Holds(t, after)
    && (changed ==> before.id !in t.records)
    && (DropsPtr(before, after) ==> PtrRowOf(z, before).id !in t.records)
    && (pointed ==> Holds(t, PtrRowOf(z, after)))
    && (i == after.id || (changed && i == before.id) || (DropsPtr(before, after) && i == PtrRowOf(z, before).id)
        || (pointed && i == PtrRowOf(z, after).id) || SameAt(s, t, i))
  }

  /** A stored row and its successor. */
  ghost predicate Succeeds(s: Store, z: Zone, before: Record, after: Record) {
    && ZonesOk(s.zones) && before.zoneId in s.zones && z == s.zones[before.zoneId]
    && before.id == RecordId(z, before) && after.id == RecordId(z, after) && before.ttl > 0 && after.ttl > 0
    && after.zoneId == before.zoneId && after.typ == before.typ && after.name == before.name
  }

  lemma NewValueNewId(s: Store, z: Zone, before: Record, after: Record)
    requires Succeeds(s, z, before, after)
    ensures !SameText(before.value, after.value) ==> before.id != after.id
  {
    RecordIdIsInjective(z, before, z, after);
  }

  lemma DroppedApart(s: Store, z: Zone, before: Record, after: Record)
    requires Succeeds(s, z, before, after) && DropsPtr(before, after)
    ensures PtrRecordForARecord(z.serverId, z.name, before) == Parsed(PtrRowOf(z, before)) && PtrRowOf(z, before).id != after.id
  {
    PtrRowIs(z, before);
    PtrRowsApart(s, z, after, before);
  }

  lemma PointedApart(s: Store, z: Zone, before: Record, after: Record)
    requires Succeeds(s, z, before, after) && CanPoint(s, z, after)
    ensures PtrRecordForARecord(z.serverId, z.name, after) == Parsed(PtrRowOf(z, after))
    ensures PtrRowOf(z, after).id != after.id && PtrRowOf(z, after).id != before.id
    ensures DropsPtr(before, after) ==> PtrRowOf(z, before).id != PtrRowOf(z, after).id
  {
    PtrRowIs(z, after);
    PtrRowsApart(s, z, after, after);
    PtrRowsApart(s, z, before, after);
    if DropsPtr(before, after) {
      PtrRowsDiffer(z, before, after);
    }
  }

  lemma RewriteLeaves(s: Store, z: Zone, before: Record, after: Record, oldPtr: Parsed<Record>, newPtr: Parsed<Record>,
                      drop: bool, add: bool, pointed: bool, i: GoString)
    requires Succeeds(s, z, before, after)
    requires oldPtr == PtrRecordForARecord(z.serverId, z.name, before) && newPtr == PtrRecordForARecord(z.serverId, z.name, after)
    requires drop && oldPtr.Parsed? <==> DropsPtr(before, after)
    requires add && newPtr.Parsed? && newPtr.value.zoneId in s.zones <==> pointed
    requires pointed ==> CanPoint(s, z, after)
    ensures UpdateLeaves(s, WriteUpdate(s, before, after, oldPtr, newPtr, drop, add), z, before, after, pointed, i)
  {
    NewValueNewId(s, z, before, after);
    if DropsPtr(before, after) {
      DroppedApart(s, z, before, after);
    }
    if pointed {
      PointedApart(s, z, before, after);
    }
    EditedRows(s, before, after, oldPtr, newPtr, drop, add, i);
  }

  lemma TakenRowSucceeds(s: Store, id: GoString, value: GoString, createPtr: Option<bool>)
    requires Spelled(s) && id in s.records
    ensures var before, z := s.records[id], s.zones[s.records[id].zoneId];
            Succeeds(s, z, before, EditedRow(z, before, value, createPtr)) && before.id == id
  {
    assert Described(s.zones, id, s.records[id]);
  }

  lemma TakenLeaves(s: Store, id: GoString, text: GoString, createPtr: Option<bool>, ready: bool, reply: AgentReply,
                    ptrCreated: bool, ptrDeleted: bool, i: GoString)
    requires Spelled(s) && UpdateTaken(s, id, TrimSpace(text), createPtr, ready, reply)
    ensures var before, z := s.records[id], s.zones[s.records[id].zoneId];
            var after := EditedRow(z, before, TrimSpace(text), createPtr);
            var d := UpdateDecision(s, id, text, createPtr, ready, reply, ptrCreated, ptrDeleted);
            && d.Rewrite? && d.before == before && d.after == after
            && UpdateLeaves(s, WriteUpdate(s, before, after, d.oldPtr, d.newPtr, d.dropPtr, d.addPtr), z, before, after,
                            GetsPtr(s, z, before, after, reply, ptrCreated), i)
  {
    var d := UpdateDecision(s, id, text, createPtr, ready, reply, ptrCreated, ptrDeleted);
    var before, z := s.records[id], s.zones[s.records[id].zoneId];
    var after := EditedRow(z, before, TrimSpace(text), createPtr);
    DecisionIs(s, id, text, createPtr, ready, reply, ptrCreated, ptrDeleted);
    TakenRowSucceeds(s, id, TrimSpace(text), createPtr);
    RewriteLeaves(s, z, before, after, d.oldPtr, d.newPtr, d.dropPtr, d.addPtr, GetsPtr(s, z, before, after, reply, ptrCreated), i);
  }

  /** After an update that is taken, its row is there under its new ID with the new value and the flag asked
      for; the old row is gone if the value changed; the old PTR row is gone, and the new one is there, as the
      flags and warnings say; and every other row is as it was. Otherwise nothing changes. */
  lemma UpdateOutcome(s: Store, id: GoString, text: GoString, createPtr: Option<bool>, ready: bool, reply: AgentReply,
                      ptrCreated: bool, ptrDeleted: bool, i: GoString)
    requires Spelled(s)
    ensures var t := UpdateStep(s, id, text, createPtr, ready, reply, ptrCreated, ptrDeleted);
            && (!UpdateTaken(s, id, TrimSpace(text), createPtr, ready, reply) ==> t == s)
            && (UpdateTaken(s, id, TrimSpace(text), createPtr, ready, reply) ==>
                  var before, z := s.records[id], s.zones[s.records[id].zoneId];
                  var after := EditedRow(z, before, TrimSpace(text), createPtr);
                  UpdateLeaves(s, t, z, before, after, GetsPtr(s, z, before, after, reply, ptrCreated), i))
  {
    if UpdateTaken(s, id, TrimSpace(text), createPtr, ready, reply) {
      TakenLeaves(s, id, text, createPtr, ready, reply, ptrCreated, ptrDeleted, i);
    } else {
      NotTakenStops(s, id, text, createPtr, ready, reply, ptrCreated, ptrDeleted);
    }
  }

  lemma NotTakenStops(s: Store, id: GoString, text: GoString, createPtr: Option<bool>, ready: bool, reply: AgentReply,
                      ptrCreated: bool, ptrDeleted: bool)
    requires Spelled(s) && !UpdateTaken(s, id, TrimSpace(text), createPtr, ready, reply)
    ensures UpdateDecision(s, id, text, createPtr, ready, reply, ptrCreated, ptrDeleted) == Stop
  {
    UpdateTakenExactly(s, id, text, createPtr, ready, reply);
  }

  // ----- deletes

  ghost predicate DeleteTaken(s: Store, id: GoString, ready: bool, reply: AgentReply) {
    && id in s.records && s.records[id].zoneId in s.zones && ready && reply.Done?
    && Managed(s.zones[s.records[id].zoneId].name, s.records[id].typ)
  }

  lemma ManagedExactly(zoneName: GoString, typ: GoString)
    ensures Managed(zoneName, typ) <==> Manageable(zoneName, typ)
  {
  }

  /** The ID of a stored row spells the row, under its zone. */
  ghost predicate SpelledAt(s: Store, id: GoString) {
    id in s.records ==>
      && s.records[id].zoneId in s.zones
      && (var r, z := s.records[id], s.zones[s.records[id].zoneId];
          DecodeParts(id, 5) == Decoded([z.serverId, z.name, r.typ, r.name, r.value]))
  }

  lemma StoredIsSpelled(s: Store, id: GoString)
    requires Spelled(s)
    ensures SpelledAt(s, id)
  {
    if id in s.records {
      StoredParts(s, id);
    }
  }

  lemma DeleteTakenExactly(s: Store, id: GoString, ready: bool, reply: AgentReply)
    requires SpelledAt(s, id)
    ensures DeleteTaken(s, id, ready, reply) <==> DeleteReady(s, id, ready) && reply.Done?
  {
    if id in s.records {
      ManagedExactly(s.zones[s.records[id].zoneId].name, s.records[id].typ);
    }
  }

  lemma DeletedRows(s: Store, id: GoString, related: Option<GoString>, i: GoString)
    ensures var t := WriteDelete(s, id, related);
            && t.zones == s.zones
            && if i == id || related == Some(i) then i !in t.records else SameAt(s, t, i)
  {
  }

  lemma DeleteIs(s: Store, id: GoString, ready: bool, reply: AgentReply, related: Option<GoString>)
    requires SpelledAt(s, id)
    ensures DeleteStep(s, id, ready, reply, related) ==
            if DeleteTaken(s, id, ready, reply)
            then WriteDelete(s, id, if EqualFold(s.records[id].typ, "A") then related else None) else s
  {
    DeleteTakenExactly(s, id, ready, reply);
  }

  /** A delete of a stored row that its zone manages, done by a ready agent, removes the row, and the related
      row of an address record; every other row is as it was. Otherwise nothing changes. */
  lemma DeleteOutcome(s: Store, id: GoString, ready: bool, reply: AgentReply, related: Option<GoString>, i: GoString)
    requires Spelled(s)
    ensures var t := DeleteStep(s, id, ready, reply, related);
            && (!DeleteTaken(s, id, ready, reply) ==> t == s)
            && (DeleteTaken(s, id, ready, reply) ==>
                  && t.zones == s.zones
                  && if i == id || (EqualFold(s.records[id].typ, "A") && related == Some(i)) then i !in t.records else SameAt(s, t, i))
  {
    StoredIsSpelled(s, id);
    DeleteIs(s, id, ready, reply, related);
    DeletedRows(s, id, related, i);
    DeletedRows(s, id, None, i);
  }

  // ----- the flag decides

  /** A row and a PTR row that has no other row to ask for it. */
  lemma FlaggedExactly(t: Store, id: GoString, ptr: Record)
    requires Base(t) && Forward(t, id) && IsA(t.records[id].typ) && PtrOf(t, id) == Parsed(ptr) && ptr.zoneId in t.zones
    ensures (exists a :: IsSource(t, a, ptr)) <==> t.records[id].createPtr
  {
    if a :| IsSource(t, a, ptr) {
      PtrIdentifies(t, a, id, ptr, ptr);
    }
    if t.records[id].createPtr {
      assert IsSource(t, id, ptr);
    }
  }

  /** Where A and PTR rows are paired and the reverse zone of the new address is stored, an update of an A
      row without warnings leaves its PTR row exactly when the row's flag, as asked for or kept, is set. */
  lemma FlagDecidesPtr(s: Store, id: GoString, text: GoString, createPtr: Option<bool>, ready: bool, reply: AgentReply)
    requires Linked(s, None, true) && UpdateTaken(s, id, TrimSpace(text), createPtr, ready, reply)
    requires Forward(s, id) && IsA(s.records[id].typ) && !Rekeys(s.records[id], TrimSpace(text)) && (reply.Done? ==> !reply.warned)
    requires ParseIPv4(TrimSpace(text)).Parsed?
    requires DNSZoneID(s.zones[s.records[id].zoneId].serverId, ReverseZone(ParseIPv4(TrimSpace(text)).value)) in s.zones
    ensures var t, z := UpdateStep(s, id, text, createPtr, ready, reply, true, true), s.zones[s.records[id].zoneId];
            var ptr := PtrRowOf(z, EditedRow(z, s.records[id], TrimSpace(text), createPtr));
            (PtrRow(t, ptr.id) && t.records[ptr.id] == ptr) <==> Flag(s.records[id], createPtr)
  {
    var t, z := UpdateStep(s, id, text, createPtr, ready, reply, true, true), s.zones[s.records[id].zoneId];
    var after := EditedRow(z, s.records[id], TrimSpace(text), createPtr);
    var ptr := PtrRowOf(z, after);
    UpdateKeepsLinked(s, id, text, createPtr, ready, reply, true, true, true);
    UpdateOutcome(s, id, text, createPtr, ready, reply, true, true, after.id);
    TrimmedTwice(text);
    assert Described(s.zones, id, s.records[id]);
    PtrRowIs(z, after);
    LinkedMeansImage(t, ptr);
    FlaggedExactly(t, after.id, ptr);
  }

  lemma TrimmedTwice(text: GoString)
    ensures TrimSpace(TrimSpace(text)) == TrimSpace(text)
  {
  }
}
