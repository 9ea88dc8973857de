/** The pairing of A and PTR rows over whole runs of requests. */
module DnsPairingRuns {
  import opened Options
  import opened Text
  import opened Ipv4
  import opened DnsNames
  import opened DnsRecords
  import opened DnsZoneRules
  import opened DnsPtrNames
  import opened DnsPairing

  /** A warning before the write means that the PTR row has no zone to be in. */
  lemma WarnedHasNoZone(s: Store, z: Zone, r: Record, ptr: Record)
    requires ZonesOk(s.zones) && WarnsBefore(s, r, z.serverId)
    requires PtrRecordForARecord(z.serverId, z.name, r) == Parsed(ptr)
    ensures ptr.zoneId !in s.zones
  {
    PtrIsDescribed(s.zones, z.serverId, z.name, r, ptr);
  }

  /** A row's PTR row, once the row is written: added, or not due. */
  lemma FinishPtr(s: Store, x: GoString, newPtr: Parsed<Record>, add: bool, complete: bool)
    requires Linked(s, Some(x), complete) && Forward(s, x) && newPtr == PtrOf(s, x)
    requires add ==> Flagged(s, x)
    requires complete && Flagged(s, x) && !add && newPtr.Parsed? ==> newPtr.value.zoneId !in s.zones
    ensures Linked(if add && newPtr.Parsed? then Upsert(s, newPtr.value) else s, None, complete)
  {
    NoException(s, x);
    if add && newPtr.Parsed? {
      AddPtr(s, x, newPtr.value, complete);
    }
  }

  // ----- create

  /** Two rows of one zone with the same ID are the same record. */
  lemma SameIdSameRecord(zones: map<GoString, Zone>, r: Record, q: Record)
    requires ZonesOk(zones) && Described(zones, r.id, r)
    requires q.zoneId in zones && q.id == RecordId(zones[q.zoneId], q) && q.id == r.id
    ensures r.zoneId == q.zoneId && SameRecord(r, q)
  {
    RecordIdIsInjective(zones[r.zoneId], r, zones[q.zoneId], q);
  }

  /** An allowed create writes a new row. */
  lemma CreateIsNew(s: Store, body: Record, record: Record)
    requires Tidy(s) && CreateAllowed(s, body)
    requires record == Normalized(body.(id := RecordId(s.zones[body.zoneId], body)))
    ensures record.id !in s.records
  {
    if record.id in s.records {
      SameIdSameRecord(s.zones, s.records[record.id], record);
      assert InZone(s, record.id, body.zoneId);
      assert CreateClash(s.records[record.id], body);
    }
  }

  lemma WriteNew(s: Store, r: Record, complete: bool)
    requires Linked(s, None, complete) && r.id !in s.records && r.zoneId in s.zones && !s.zones[r.zoneId].reverse
    requires r.id == RecordId(s.zones[r.zoneId], r) && Fits(s, r) && (IsA(r.typ) ==> PlainName(r.name))
    ensures Linked(Upsert(s, r), Some(r.id), complete)
  {
    NoSource(s, r.id);
    PutForward(s, r, complete);
  }

  lemma WriteCreateKeepsLinked(s: Store, r: Record, ptr: Parsed<Record>, add: bool, complete: bool)
    requires Linked(s, None, complete) && r.id !in s.records && r.zoneId in s.zones && !s.zones[r.zoneId].reverse
    requires r.id == RecordId(s.zones[r.zoneId], r) && Fits(s, r) && (IsA(r.typ) ==> PlainName(r.name)) && r.ttl > 0
    requires ptr == PtrRecordForARecord(s.zones[r.zoneId].serverId, s.zones[r.zoneId].name, r)
    requires add ==> IsA(r.typ) && r.createPtr
    requires complete && IsA(r.typ) && r.createPtr && !add && ptr.Parsed? ==> ptr.value.zoneId !in s.zones
    ensures Linked(WriteCreate(s, r, ptr, add), None, complete)
  {
    WriteNew(s, r, complete);
    FinishPtr(Upsert(s, r), r.id, ptr, add, complete);
  }

  lemma CreateAllowedKeepsLinked(s: Store, body: Record, record: Record, ptr: Parsed<Record>, add: bool, complete: bool)
    requires Linked(s, None, complete) && (IsA(body.typ) ==> PlainName(body.name)) && CreateAllowed(s, body) && Fits(s, record)
    requires var z := s.zones[body.zoneId];
             && record == Normalized(body.(id := RecordId(z, body)))
             && ptr == PtrRecordForARecord(z.serverId, z.name, record)
             && (add ==> IsA(body.typ) && body.createPtr)
             && (complete && IsA(body.typ) && body.createPtr && !add ==> WarnsBefore(s, body, z.serverId))
    ensures Linked(WriteCreate(s, record, ptr, add), None, complete)
  {
    CreateIsNew(s, body, record);
    if ptr.Parsed? && WarnsBefore(s, record, s.zones[body.zoneId].serverId) {
      WarnedHasNoZone(s, s.zones[body.zoneId], record, ptr.value);
    }
    WriteCreateKeepsLinked(s, record, ptr, add, complete);
  }

  lemma CreateKeepsLinked(s: Store, body: Record, ready: bool, reply: AgentReply, complete: bool)
    requires Linked(s, None, complete) && (IsA(body.typ) ==> PlainName(body.name))
    requires complete && reply.Done? ==> !reply.warned
    ensures Linked(CreateStep(s, body, ready, reply), None, complete)
  {
    if CreateReady(s, body, ready) && reply.Done? {
      var record, ptr, add := CreateWrites(s, body, ready, reply);
      CreateFits(s, body, record);
      CreateAllowedKeepsLinked(s, body, record, ptr, add, complete);
    }
  }

  // ----- update

  /** An allowed change of value writes a new row. */
  lemma UpdateIsNew(s: Store, id: GoString, after: Record)
    requires Tidy(s) && Forward(s, id) && UpdateAllowed(s, s.records[id], after)
    requires after == s.records[id].(value := after.value, createPtr := after.createPtr, id := RecordId(s.zones[s.records[id].zoneId], after))
    requires after.id != id && !SameText(s.records[id].value, after.value)
    ensures after.id !in s.records
  {
    if after.id in s.records {
      SameIdSameRecord(s.zones, s.records[after.id], after);
      assert InZone(s, after.id, s.records[id].zoneId) && s.records[after.id].id != s.records[id].id;
      assert UpdateClash(s.records[after.id], s.records[id], after.value);
    }
  }

  /** The first write of an update: the row's PTR row goes, or there is none that it is the source of. */
  lemma DropOldPtr(s: Store, id: GoString, oldPtr: Parsed<Record>, drop: bool, complete: bool)
    requires Linked(s, None, complete) && Forward(s, id) && oldPtr == PtrOf(s, id)
    requires drop <==> Flagged(s, id)
    ensures Linked(if drop && oldPtr.Parsed? then Remove(s, oldPtr.value.id) else s, Some(id), complete)
  {
    if drop && oldPtr.Parsed? {
      DropPtr(s, id, oldPtr.value, complete);
    } else {
      NoSource(s, id);
    }
  }

  lemma AfterDrop(s: Store, id: GoString, oldPtr: Parsed<Record>, drop: bool)
    requires Tidy(s) && Forward(s, id) && oldPtr == PtrOf(s, id)
    ensures Forward(if drop && oldPtr.Parsed? then Remove(s, oldPtr.value.id) else s, id)
  {
    PtrIdIsNotForward(s, id, id);
  }

  /** What an allowed update of a forward zone's row, no re-key, may write. */
  ghost predicate Edit(s: Store, id: GoString, after: Record, oldPtr: Parsed<Record>, newPtr: Parsed<Record>, add: bool, complete: bool) {
    && Linked(s, None, complete) && Forward(s, id)
    && UpdateAllowed(s, s.records[id], after) && !Rekeys(s.records[id], after.value)
    && after == s.records[id].(value := after.value, createPtr := after.createPtr, id := RecordId(s.zones[s.records[id].zoneId], after))
    && (after.id == id <==> after.value == s.records[id].value)
    && oldPtr == PtrOf(s, id)
    && newPtr == PtrRecordForARecord(s.zones[after.zoneId].serverId, s.zones[after.zoneId].name, after)
    && (add ==> IsA(after.typ) && after.createPtr)
    && (complete && IsA(after.typ) && after.createPtr && !add && newPtr.Parsed? ==> newPtr.value.zoneId !in s.zones)
  }

  /** The row of the edit is written where no PTR row has its source. */
  lemma WriteRow(s: Store, s1: Store, id: GoString, after: Record, oldPtr: Parsed<Record>, newPtr: Parsed<Record>, add: bool, complete: bool)
    requires Edit(s, id, after, oldPtr, newPtr, add, complete)
    requires Linked(s1, Some(id), complete) && Forward(s1, id) && s1.zones == s.zones
    requires forall i :: i in s1.records ==> i in s.records && s1.records[i] == s.records[i]
    ensures Linked(Upsert(if SameText(s.records[id].value, after.value) then s1 else Remove(s1, id), after), Some(after.id), complete)
  {
    if SameText(s.records[id].value, after.value) {
      UpdateFits(s, s1, id, after);
      PutForward(s1, after, complete);
    } else {
      var s2 := Remove(s1, id);
      RemoveForward(s1, id, complete);
      UpdateIsNew(s, id, after);
      UpdateFits(s, s2, id, after);
      WriteNew(s2, after, complete);
    }
  }

  lemma EditKeepsLinked(s: Store, id: GoString, after: Record, oldPtr: Parsed<Record>, newPtr: Parsed<Record>,
                        drop: bool, add: bool, complete: bool)
    requires Edit(s, id, after, oldPtr, newPtr, add, complete) && after.ttl > 0
    requires drop <==> Flagged(s, id)
    ensures Linked(WriteUpdate(s, s.records[id], after, oldPtr, newPtr, drop, add), None, complete)
  {
    var s1 := if drop && oldPtr.Parsed? then Remove(s, oldPtr.value.id) else s;
    DropOldPtr(s, id, oldPtr, drop, complete);
    AfterDrop(s, id, oldPtr, drop);
    WriteRow(s, s1, id, after, oldPtr, newPtr, add, complete);
    var s3 := Upsert(if SameText(s.records[id].value, after.value) then s1 else Remove(s1, id), after);
    FinishPtr(s3, after.id, newPtr, add, complete);
  }

  lemma NoEditWrites(s: Store, r: Record, oldPtr: Parsed<Record>, newPtr: Parsed<Record>, add: bool)
    requires r.id in s.records && s.records[r.id] == r && r.ttl > 0
    ensures WriteUpdate(s, r, r, oldPtr, newPtr, false, add) == if add && newPtr.Parsed? then Upsert(s, newPtr.value) else s
  {
    assert s.records[r.id := r] == s.records;
  }

  /** An edit that changes nothing writes at most a PTR row that should be there. */
  lemma NoEditKeepsLinked(s: Store, id: GoString, oldPtr: Parsed<Record>, newPtr: Parsed<Record>, add: bool, complete: bool)
    requires Linked(s, None, complete) && Flagged(s, id) && newPtr == PtrOf(s, id)
    ensures Linked(WriteUpdate(s, s.records[id], s.records[id], oldPtr, newPtr, false, add), None, complete)
  {
    assert Described(s.zones, id, s.records[id]);
    NoEditWrites(s, s.records[id], oldPtr, newPtr, add);
    if add && newPtr.Parsed? {
      AddPtr(s, id, newPtr.value, complete);
    }
  }

  lemma UpdateKeepsLinked(s: Store, id: GoString, text: GoString, createPtr: Option<bool>, ready: bool, reply: AgentReply,
                          ptrCreated: bool, ptrDeleted: bool, complete: bool)
    requires Linked(s, None, complete)
    requires id in s.records ==> Forward(s, id) && !Rekeys(s.records[id], TrimSpace(text))
    requires complete ==> (reply.Done? ==> !reply.warned) && ptrCreated && ptrDeleted
    ensures Linked(UpdateStep(s, id, text, createPtr, ready, reply, ptrCreated, ptrDeleted), None, complete)
  {
    if Accepted(s, id, text, createPtr, ready, reply) {
      var after, oldPtr, newPtr, drop, add := UpdateWrites(s, id, text, createPtr, ready, reply, ptrCreated, ptrDeleted);
      if complete && newPtr.Parsed? && WarnsBefore(s, after, s.zones[after.zoneId].serverId) {
        WarnedHasNoZone(s, s.zones[after.zoneId], after, newPtr.value);
      }
      assert Described(s.zones, id, s.records[id]);
      if Flagged(s, id) && !drop {
        NoEditKeepsLinked(s, id, oldPtr, newPtr, add, complete);
      } else {
        EditKeepsLinked(s, id, after, oldPtr, newPtr, drop, add, complete);
      }
    }
  }

  // ----- delete

  lemma MatchIsPtrRow(s: Store, id: GoString, related: GoString, ptr: Record)
    requires Tidy(s) && Forward(s, id) && PtrOf(s, id) == Parsed(ptr)
    requires related in s.records && MatchesPtr(s.records[related], ptr)
    ensures PtrRow(s, related)
  {
    var z := s.zones[s.records[id].zoneId];
    assert Described(s.zones, related, s.records[related]);
    PtrIsDescribed(s.zones, z.serverId, z.name, s.records[id], ptr);
  }

  /** The related row of a delete is the row's own PTR row. */
  lemma RelatedIsItsPtr(s: Store, id: GoString, related: GoString, ptr: Record)
    requires Base(s) && Sourced(s, None) && Forward(s, id) && IsA(s.records[id].typ) && PtrOf(s, id) == Parsed(ptr)
    requires related in s.records && MatchesPtr(s.records[related], ptr)
    ensures IsSource(s, id, s.records[related])
  {
    MatchIsPtrRow(s, id, related, ptr);
    var a :| Some(a) != None && IsSource(s, a, s.records[related]);
    PtrIdentifies(s, a, id, s.records[related], ptr);
  }

  /** Without a related row, the row is no source. */
  lemma NoRelatedNoSource(s: Store, id: GoString)
    requires Tidy(s) && Forward(s, id) && IsA(s.records[id].typ)
    requires PtrOf(s, id).Parsed? ==> forall i | i in s.records :: !MatchesPtr(s.records[i], PtrOf(s, id).value)
    ensures forall p :: PtrRow(s, p) ==> !IsSource(s, id, s.records[p])
  {
    PtrTypeIsPtr();
    forall p | PtrRow(s, p) ensures !IsSource(s, id, s.records[p]) {
      if PtrOf(s, id) == Parsed(s.records[p]) {
        assert MatchesPtr(s.records[p], PtrOf(s, id).value);
      }
    }
  }

  lemma RemovesCommute(s: Store, i: GoString, j: GoString)
    ensures WriteDelete(s, i, Some(j)) == Remove(Remove(s, j), i)
  {
    assert s.records - {i} - {j} == s.records - {j} - {i};
  }

  lemma DeleteRelatedKeepsLinked(s: Store, id: GoString, ptr: Record, complete: bool)
    requires Linked(s, None, complete) && IsSource(s, id, ptr)
    ensures Linked(WriteDelete(s, id, Some(ptr.id)), None, complete)
  {
    DropPtr(s, id, ptr, complete);
    PtrIdIsNotForward(s, id, id);
    RemoveForward(Remove(s, ptr.id), id, complete);
    RemovesCommute(s, id, ptr.id);
  }

  lemma DeleteAKeepsLinked(s: Store, id: GoString, related: Option<GoString>, complete: bool)
    requires Linked(s, None, complete) && Forward(s, id) && IsA(s.records[id].typ)
    requires match related
             case Some(p) => PtrOf(s, id).Parsed? && p in s.records && MatchesPtr(s.records[p], PtrOf(s, id).value)
             case None => PtrOf(s, id).Parsed? ==> forall i | i in s.records :: !MatchesPtr(s.records[i], PtrOf(s, id).value)
    ensures Linked(WriteDelete(s, id, related), None, complete)
  {
    if related.Some? {
      RelatedIsItsPtr(s, id, related.value, PtrOf(s, id).value);
      assert Described(s.zones, related.value, s.records[related.value]);
      DeleteRelatedKeepsLinked(s, id, s.records[related.value], complete);
    } else {
      NoRelatedNoSource(s, id);
      NoSource(s, id);
      RemoveForward(s, id, complete);
    }
  }

  /** Deleting a PTR row itself orphans nothing. */
  lemma DeletePtrKeepsLinked(s: Store, id: GoString)
    requires Linked(s, None, false) && PtrRow(s, id)
    ensures Linked(Remove(s, id), None, false)
  {
    RemoveKeepsBase(s, id);
    DeletePtrKeepsSourced(s, id);
  }

  lemma DeletePtrKeepsSourced(s: Store, id: GoString)
    requires Sourced(s, None) && PtrRow(s, id)
    ensures Sourced(Remove(s, id), None)
  {
    KeepSourced(s, Remove(s, id), None);
  }

  /** What an accepted delete removes. */
  lemma DeleteWrites(s: Store, id: GoString, ready: bool, related: Option<GoString>, warned: bool)
    requires id in s.records && Described(s.zones, id, s.records[id]) && DeleteReady(s, id, ready)
    ensures var r := s.records[id];
            var z := s.zones[r.zoneId];
            && DeleteStep(s, id, ready, Done(warned), related) == WriteDelete(s, id, if IsA(r.typ) then related else None)
            && (Possible(s, Delete(id, ready, Done(warned), related)) <==> Related(s, z.serverId, z.name, r, related))
  {
    FieldsOfId(s.zones, id, s.records[id]);
  }

  lemma WriteDeleteKeepsLinked(s: Store, id: GoString, related: Option<GoString>, complete: bool)
    requires Linked(s, None, complete) && (Forward(s, id) || (!complete && PtrRow(s, id)))
    requires var r := s.records[id]; Related(s, s.zones[r.zoneId].serverId, s.zones[r.zoneId].name, r, related)
    ensures Linked(WriteDelete(s, id, if IsA(s.records[id].typ) then related else None), None, complete)
  {
    if IsA(s.records[id].typ) && Forward(s, id) {
      DeleteAKeepsLinked(s, id, related, complete);
    } else if Forward(s, id) {
      NoSource(s, id);
      RemoveForward(s, id, complete);
    } else {
      PtrIsNotA(s.records[id].typ);
      DeletePtrKeepsLinked(s, id);
    }
  }

  lemma DeleteKeepsLinked(s: Store, id: GoString, ready: bool, reply: AgentReply, related: Option<GoString>, complete: bool)
    requires Linked(s, None, complete)
    requires id in s.records ==> Forward(s, id) || (!complete && PtrRow(s, id))
    requires Possible(s, Delete(id, ready, reply, related))
    ensures Linked(DeleteStep(s, id, ready, reply, related), None, complete)
  {
    if DeleteReady(s, id, ready) && reply.Done? {
      DeleteWrites(s, id, ready, related, reply.warned);
      WriteDeleteKeepsLinked(s, id, related, complete);
    }
  }

  lemma PtrIsNotA(typ: GoString)
    ensures IsA(typ) ==> !EqualFold(TrimSpace(typ), "PTR")
  {
    if IsA(typ) {
      assert |typ| == 1;
      assert |TrimSpace(typ)| <= 1;
    }
  }

  // ----- runs

  /** An A name has no dot at its ends. */
  predicate NamedPlainly(q: Request) {
    q.Create? && IsA(q.body.typ) ==> PlainName(q.body.name)
  }

  /** No re-keys and no edits of PTR rows; and for `complete`, no warnings and no deletes of PTR rows either. */
  ghost predicate Regular(s: Store, q: Request, complete: bool) {
    match q
    case Create(_, _, reply) =>
      complete && reply.Done? ==> !reply.warned
    case Update(id, text, _, _, reply, ptrCreated, ptrDeleted) =>
      && (id in s.records ==> Forward(s, id) && !Rekeys(s.records[id], TrimSpace(text)))
      && (complete ==> (reply.Done? ==> !reply.warned) && ptrCreated && ptrDeleted)
    case Delete(id, _, _, _) =>
      (id in s.records ==> Forward(s, id) || (!complete && PtrRow(s, id))) && Possible(s, q)
  }

  /** The requests the pairing is claimed for. */
  ghost predicate Covered(s: Store, q: Request, complete: bool) {
    NamedPlainly(q) && Regular(s, q, complete)
  }

  ghost predicate CoveredRun(s: Store, requests: seq<Request>, complete: bool)
    decreases |requests|
  {
    requests != [] ==> Covered(s, requests[0], complete) && CoveredRun(Step(s, requests[0]), requests[1..], complete)
  }

  lemma StepKeepsLinked(s: Store, q: Request, complete: bool)
    requires Linked(s, None, complete) && Covered(s, q, complete)
    ensures Linked(Step(s, q), None, complete)
  {
    match q
    case Create(body, ready, reply) =>
      CreateKeepsLinked(s, body, ready, reply, complete);
    case Update(id, text, createPtr, ready, reply, ptrCreated, ptrDeleted) =>
      UpdateKeepsLinked(s, id, text, createPtr, ready, reply, ptrCreated, ptrDeleted, complete);
    case Delete(id, ready, reply, related) =>
      DeleteKeepsLinked(s, id, ready, reply, related, complete);
  }

  lemma {:induction false} RunKeepsLinked(s: Store, requests: seq<Request>, complete: bool)
    requires Linked(s, None, complete) && CoveredRun(s, requests, complete)
    ensures Linked(Run(s, requests), None, complete)
    decreases |requests|
  {
    if requests != [] {
      StepKeepsLinked(s, requests[0], complete);
      RunKeepsLinked(Step(s, requests[0]), requests[1..], complete);
    }
  }

  /** A state to start from: no PTR rows, and no A row that asks for one. */
  ghost predicate Unpaired(s: Store) {
    Base(s) && (forall id :: !PtrRow(s, id)) && (forall id :: !Flagged(s, id))
  }

  /** For example a store without records. */
  lemma NoRecordsAreUnpaired(zones: map<GoString, Zone>)
    requires ZonesOk(zones) && ZonesPlain(zones)
    ensures Unpaired(Store(zones, map[]))
  {
  }

  /** Whatever the agent answers, every PTR row is the image of an A row that asks for it. */
  lemma NoOrphanPtrRows(s: Store, requests: seq<Request>, p: GoString)
    requires Unpaired(s) && CoveredRun(s, requests, false) && PtrRow(Run(s, requests), p)
    ensures exists a :: IsSource(Run(s, requests), a, Run(s, requests).records[p])
  {
    RunKeepsLinked(s, requests, false);
    var t := Run(s, requests);
    var a :| Some(a) != None && IsSource(t, a, t.records[p]);
  }

  /** When nothing warns, the PTR rows are exactly the images of the A rows that ask for one, as far as
      their reverse zones are stored. */
  lemma PtrRowsAreTheImage(s: Store, requests: seq<Request>, ptr: Record)
    requires Unpaired(s) && CoveredRun(s, requests, true) && ptr.zoneId in s.zones
    ensures var t := Run(s, requests);
            (PtrRow(t, ptr.id) && t.records[ptr.id] == ptr) <==> exists a :: IsSource(t, a, ptr)
  {
    RunKeepsLinked(s, requests, true);
    LinkedMeansImage(Run(s, requests), ptr);
  }

  // ----- nested zones

  lemma NamesRegroup(zone: GoString, inner: GoString, name: GoString)
    requires name != "" && name != "@"
    ensures FullName(inner + "." + zone, name) == FullName(zone, name + "." + inner)
  {
    assert |name + "." + inner| > 1;
    assert name + "." + (inner + "." + zone) == name + "." + inner + "." + zone;
  }

  lemma NestedFullName(zone: GoString, inner: GoString, name: GoString)
    requires PlainZone(zone) && PlainZone(inner + "." + zone) && PlainName(name) && PlainName(name + "." + inner)
    requires TrimSpace(name) == name != "@" && TrimSpace(name + "." + inner) == name + "." + inner
    ensures PtrRecordFQDN(inner + "." + zone, name) == PtrRecordFQDN(zone, name + "." + inner)
  {
    PlainFQDN(inner + "." + zone, name);
    PlainFQDN(zone, name + "." + inner);
    NamesRegroup(zone, inner, name);
  }

  /** In nested zones two names are one full name, so two A rows share one PTR row. */
  lemma NestedZonesShareAPtr(serverId: GoString, zone: GoString, inner: GoString, name: GoString, r: Record, q: Record)
    requires PlainZone(zone) && PlainZone(inner + "." + zone) && PlainName(name) && PlainName(name + "." + inner)
    requires TrimSpace(name) == name != "@" && TrimSpace(name + "." + inner) == name + "." + inner
    requires r.name == name && q.name == name + "." + inner && r.value == q.value && r.ttl == q.ttl
    ensures PtrRecordForARecord(serverId, inner + "." + zone, r) == PtrRecordForARecord(serverId, zone, q)
  {
    NestedFullName(zone, inner, name);
    SamePtrRecord(serverId, inner + "." + zone, zone, r, q);
  }

  lemma SamePtrRecord(serverId: GoString, zone: GoString, otherZone: GoString, r: Record, q: Record)
    requires r.value == q.value && r.ttl == q.ttl && PtrRecordFQDN(zone, r.name) == PtrRecordFQDN(otherZone, q.name)
    ensures PtrRecordForARecord(serverId, zone, r) == PtrRecordForARecord(serverId, otherZone, q)
  {
  }

  /** Deleting one of two rows that share a PTR row takes it from the other. */
  lemma SharedPtrIsLost(s: Store, i: GoString, j: GoString, ptr: Record, ready: bool)
    requires Tidy(s) && IsSource(s, i, ptr) && IsSource(s, j, ptr) && i != j && DeleteReady(s, i, ready)
    requires ptr.id in s.records && s.records[ptr.id] == ptr
    ensures Possible(s, Delete(i, ready, Done(false), Some(ptr.id)))
    ensures var t := DeleteStep(s, i, ready, Done(false), Some(ptr.id)); Flagged(t, j) && !HasItsPtr(t, j)
  {
    assert Described(s.zones, i, s.records[i]) && Described(s.zones, ptr.id, ptr);
    DeleteWrites(s, i, ready, Some(ptr.id), false);
    OwnPtrMatches(s.zones[s.records[i].zoneId], s.records[i], ptr);
    PtrIdIsNotForward(s, i, j);
    LostPtr(s, i, j, ptr);
  }

  lemma OwnPtrMatches(z: Zone, r: Record, ptr: Record)
    requires PtrRecordForARecord(z.serverId, z.name, r) == Parsed(ptr)
    ensures MatchesPtr(ptr, ptr)
  {
    PtrTypeIsPtr();
  }

  lemma LostPtr(s: Store, i: GoString, j: GoString, ptr: Record)
    requires IsSource(s, j, ptr) && i != j && ptr.id != j && ptr.zoneId in s.zones
    ensures var t := WriteDelete(s, i, Some(ptr.id)); Flagged(t, j) && !HasItsPtr(t, j)
  {
    var t := WriteDelete(s, i, Some(ptr.id));
    assert PtrOf(t, j) == PtrOf(s, j);
  }
}
