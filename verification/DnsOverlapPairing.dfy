/** The pairing of A and PTR rows when requests overlap: what a late write may do to it, and a delete that
    leaves an orphan because it is checked between the two writes of a create. */
module DnsOverlapPairing {
  import opened Options
  import opened Text
  import opened Ipv4
  import opened PtrNames
  import opened ResourceIds
  import opened DnsRecords
  import opened DnsZoneRules
  import opened DnsPtrNames
  import opened DnsPairing
  import opened DnsPairingRuns
  import opened DnsOverlap
  import Host = DnsNesting

  /** A row that asks for this PTR row. */
  ghost predicate AsksFor(zones: map<GoString, Zone>, row: Record, ptr: Record)
    requires row.zoneId in zones
  {
    IsA(row.typ) && row.createPtr && PtrOfRow(zones, row) == Parsed(ptr)
  }

  /** The write takes a PTR row its A row. */
  ghost predicate Orphans(s: Store, w: Statement, p: GoString) {
    && PtrRow(s, p)
    && match w
       case Drop(id) => p != id && IsSource(s, id, s.records[p])
       case Put(row) =>
         && row.zoneId in s.zones && !s.zones[row.zoneId].reverse
         && IsSource(s, row.id, s.records[p]) && !AsksFor(s.zones, Normalized(row), s.records[p])
  }

  /** A write takes no PTR row its A row, and brings none without one. */
  ghost predicate KeepsSource(s: Store, w: Statement) {
    && (forall p :: !Orphans(s, w, p))
    && (w.Put? && w.row.zoneId in s.zones && s.zones[w.row.zoneId].reverse && EqualFold(TrimSpace(w.row.typ), "PTR") ==>
          exists a :: IsSource(s, a, Normalized(w.row)))
  }

  // ----- one late write

  lemma DropKeepsSourced(s: Store, id: GoString)
    requires Sourced(s, None) && KeepsSource(s, Drop(id))
    ensures Sourced(Remove(s, id), None)
  {
    forall p | PtrRow(s, p) ensures !IsSource(s, id, s.records[p]) {
      assert !Orphans(s, Drop(id), p);
    }
    NoSource(s, id);
    KeepSourced(s, Remove(s, id), Some(id));
    NoException(Remove(s, id), id);
  }

  /** A row's PTR row has no other source. */
  lemma OnlyThatSource(s: Store, a: GoString, id: GoString, p: GoString)
    requires Base(s) && PtrRow(s, p) && IsSource(s, a, s.records[p]) && IsSource(s, id, s.records[p])
    ensures a == id
  {
    OneSource(s, a, id, s.records[p], s.records[p]);
  }

  /** A row that is the same in both stores. */
  lemma SourceStays(s: Store, t: Store, a: GoString, ptr: Record)
    requires t.zones == s.zones && (a in s.records <==> a in t.records) && (a in s.records ==> t.records[a] == s.records[a])
    ensures IsSource(t, a, ptr) <==> IsSource(s, a, ptr)
  {
    assert Flagged(t, a) <==> Flagged(s, a);
  }

  lemma NoSourceAfterDrop(s: Store, id: GoString, p: GoString, a: GoString)
    requires Base(s) && PtrRow(s, p) && p != id && IsSource(s, id, s.records[p])
    ensures !IsSource(Remove(s, id), a, s.records[p])
  {
    if a != id && IsSource(Remove(s, id), a, s.records[p]) {
      SourceStays(s, Remove(s, id), a, s.records[p]);
      OnlyThatSource(s, a, id, p);
    }
  }

  lemma PtrRowStays(s: Store, id: GoString, p: GoString)
    requires PtrRow(s, p) && p != id
    ensures PtrRow(Remove(s, id), p) && Remove(s, id).records[p] == s.records[p]
  {
  }

  lemma NoSourcesAfterDrop(s: Store, id: GoString, p: GoString)
    requires Base(s) && PtrRow(s, p) && p != id && IsSource(s, id, s.records[p])
    ensures forall a :: !IsSource(Remove(s, id), a, s.records[p])
  {
    forall a ensures !IsSource(Remove(s, id), a, s.records[p]) {
      NoSourceAfterDrop(s, id, p, a);
    }
  }

  lemma DropSourcedOnlyIf(s: Store, id: GoString, p: GoString)
    requires Base(s) && Orphans(s, Drop(id), p)
    ensures !Sourced(Remove(s, id), None)
  {
    NoSourcesAfterDrop(s, id, p);
    PtrRowStays(s, id, p);
    NotSourced(Remove(s, id), p);
  }

  lemma NotSourced(t: Store, p: GoString)
    requires PtrRow(t, p) && forall a :: !IsSource(t, a, t.records[p])
    ensures !Sourced(t, None)
  {
  }

  /** The row at its ID, if there is one, is in its zone. */
  lemma SameZoneAtId(s: Store, row: Record)
    requires Spelled(s) && SpellsItsId(s.zones, Put(row)) && row.zoneId in s.zones && row.id in s.records
    ensures s.records[row.id].zoneId == row.zoneId
  {
    assert Described(s.zones, row.id, s.records[row.id]);
    SameIdSameRecord(s.zones, s.records[row.id], row);
  }

  /** Writing a row of a forward zone changes no PTR row. */
  lemma ForwardPut(s: Store, row: Record, p: GoString)
    requires Spelled(s) && SpellsItsId(s.zones, Put(row)) && row.zoneId in s.zones && !s.zones[row.zoneId].reverse
    ensures PtrRow(Upsert(s, row), p) <==> PtrRow(s, p)
    ensures PtrRow(s, p) ==> Upsert(s, row).records[p] == s.records[p]
  {
    if p == row.id && p in s.records {
      SameZoneAtId(s, row);
    }
  }

  lemma SourceAfterPut(s: Store, row: Record, a: GoString, ptr: Record)
    requires row.zoneId in s.zones && !s.zones[row.zoneId].reverse
    ensures a != row.id ==> (IsSource(Upsert(s, row), a, ptr) <==> IsSource(s, a, ptr))
    ensures IsSource(Upsert(s, row), row.id, ptr) <==> AsksFor(s.zones, Normalized(row), ptr)
  {
    NewSource(s, row, ptr);
    if a != row.id {
      SourceStays(s, Upsert(s, row), a, ptr);
    }
  }

  lemma NewSource(s: Store, row: Record, ptr: Record)
    requires row.zoneId in s.zones && !s.zones[row.zoneId].reverse
    ensures IsSource(Upsert(s, row), row.id, ptr) <==> AsksFor(s.zones, Normalized(row), ptr)
  {
  }

  lemma ForwardPutKeepsSourced(s: Store, row: Record)
    requires Spelled(s) && Sourced(s, None) && SpellsItsId(s.zones, Put(row)) && KeepsSource(s, Put(row))
    requires row.zoneId in s.zones && !s.zones[row.zoneId].reverse
    ensures Sourced(Upsert(s, row), None)
  {
    var t := Upsert(s, row);
    forall p | PtrRow(t, p) ensures exists a :: Some(a) != None && IsSource(t, a, t.records[p]) {
      ForwardPut(s, row, p);
      var a :| Some(a) != None && IsSource(s, a, s.records[p]);
      assert !Orphans(s, Put(row), p);
      SourceAfterPut(s, row, a, s.records[p]);
      assert IsSource(t, a, t.records[p]);
    }
  }

  lemma NoSourceAfterPut(s: Store, row: Record, p: GoString, a: GoString)
    requires Base(s) && row.zoneId in s.zones && !s.zones[row.zoneId].reverse
    requires PtrRow(s, p) && IsSource(s, row.id, s.records[p]) && !AsksFor(s.zones, Normalized(row), s.records[p])
    ensures !IsSource(Upsert(s, row), a, s.records[p])
  {
    SourceAfterPut(s, row, a, s.records[p]);
    if IsSource(s, a, s.records[p]) {
      OnlyThatSource(s, a, row.id, p);
    }
  }

  lemma ForwardPutSourcedOnlyIf(s: Store, row: Record, p: GoString)
    requires Base(s) && SpellsItsId(s.zones, Put(row)) && Orphans(s, Put(row), p)
    ensures !Sourced(Upsert(s, row), None)
  {
    ForwardPut(s, row, p);
    forall a ensures !IsSource(Upsert(s, row), a, s.records[p]) {
      NoSourceAfterPut(s, row, p, a);
    }
    NotSourced(Upsert(s, row), p);
  }

  /** Writing a row of a reverse zone changes no source. */
  lemma ReversePut(s: Store, row: Record)
    requires Spelled(s) && SpellsItsId(s.zones, Put(row)) && row.zoneId in s.zones && s.zones[row.zoneId].reverse
    ensures SameForward(s, Upsert(s, row))
  {
    if row.id in s.records {
      SameZoneAtId(s, row);
    }
    OutsideForward(s, row);
  }

  lemma SameSources(s: Store, t: Store, a: GoString, ptr: Record)
    requires SameForward(s, t)
    ensures IsSource(t, a, ptr) <==> IsSource(s, a, ptr)
  {
    assert Flagged(t, a) <==> Flagged(s, a);
  }

  lemma ReversePutKeepsSourced(s: Store, row: Record)
    requires Sourced(s, None) && SameForward(s, Upsert(s, row)) && KeepsSource(s, Put(row))
    requires row.zoneId in s.zones && s.zones[row.zoneId].reverse
    ensures Sourced(Upsert(s, row), None)
  {
    var t := Upsert(s, row);
    forall p | PtrRow(t, p) ensures exists a :: Some(a) != None && IsSource(t, a, t.records[p]) {
      var a := SourceOf(s, row, p);
      SameSources(s, t, a, t.records[p]);
      assert Some(a) != None && IsSource(t, a, t.records[p]);
    }
  }

  ghost function SourceOf(s: Store, row: Record, p: GoString): (a: GoString)
    requires Sourced(s, None) && KeepsSource(s, Put(row)) && row.zoneId in s.zones && s.zones[row.zoneId].reverse
    requires PtrRow(Upsert(s, row), p)
    ensures IsSource(s, a, Upsert(s, row).records[p])
  {
    if p == row.id then
      var a :| IsSource(s, a, Normalized(row)); a
    else
      assert PtrRow(s, p);
      var a :| Some(a) != None && IsSource(s, a, s.records[p]); a
  }

  lemma ReversePutSourcedOnlyIf(s: Store, row: Record)
    requires Sourced(Upsert(s, row), None) && SameForward(s, Upsert(s, row))
    requires row.zoneId in s.zones && s.zones[row.zoneId].reverse && EqualFold(TrimSpace(row.typ), "PTR")
    ensures exists a :: IsSource(s, a, Normalized(row))
  {
    var t := Upsert(s, row);
    assert PtrRow(t, row.id) && t.records[row.id] == Normalized(row);
    var a :| Some(a) != None && IsSource(t, a, t.records[row.id]);
    SameSources(s, t, a, Normalized(row));
  }

  lemma ReversePutSourcedExactly(s: Store, row: Record)
    requires Spelled(s) && Sourced(s, None) && SpellsItsId(s.zones, Put(row))
    requires row.zoneId in s.zones && s.zones[row.zoneId].reverse
    ensures Sourced(Upsert(s, row), None) <==> KeepsSource(s, Put(row))
  {
    ReversePut(s, row);
    assert forall p :: !Orphans(s, Put(row), p);
    if KeepsSource(s, Put(row)) {
      ReversePutKeepsSourced(s, row);
    } else if Sourced(Upsert(s, row), None) {
      ReversePutSourcedOnlyIf(s, row);
    }
  }

  lemma OrphansOnlyIf(s: Store, w: Statement, p: GoString)
    requires Base(s) && SpellsItsId(s.zones, w) && Orphans(s, w, p)
    ensures !Sourced(Write(s, w), None)
  {
    match w
    case Drop(id) =>
      DropSourcedOnlyIf(s, id, p);
    case Put(row) =>
      ForwardPutSourcedOnlyIf(s, row, p);
  }

  lemma KeepsSourced(s: Store, w: Statement)
    requires Spelled(s) && Sourced(s, None) && SpellsItsId(s.zones, w) && KeepsSource(s, w)
    requires w.Put? && w.row.zoneId in s.zones ==> !s.zones[w.row.zoneId].reverse
    ensures Sourced(Write(s, w), None)
  {
    match w
    case Drop(id) =>
      DropKeepsSourced(s, id);
    case Put(row) =>
      if row.zoneId in s.zones {
        ForwardPutKeepsSourced(s, row);
      }
  }

  /** Whenever it happens, a write leaves every PTR row its A row exactly when it keeps the sources. */
  lemma LateWriteKeepsSourcedExactly(s: Store, w: Statement)
    requires Base(s) && Sourced(s, None) && SpellsItsId(s.zones, w)
    ensures Sourced(Write(s, w), None) <==> KeepsSource(s, w)
  {
    if w.Put? && w.row.zoneId in s.zones && s.zones[w.row.zoneId].reverse {
      ReversePutSourcedExactly(s, w.row);
    } else if KeepsSource(s, w) {
      KeepsSourced(s, w);
    } else {
      var p :| Orphans(s, w, p);
      OrphansOnlyIf(s, w, p);
    }
  }

  // ----- plain names

  /** An A row for a forward zone is named plainly. */
  ghost predicate PlainPut(zones: map<GoString, Zone>, w: Statement) {
    w.Put? && w.row.zoneId in zones && !zones[w.row.zoneId].reverse && IsA(w.row.typ) ==> PlainName(w.row.name)
  }

  ghost predicate AllPlain(zones: map<GoString, Zone>, ws: seq<Statement>) {
    forall k :: 0 <= k < |ws| ==> PlainPut(zones, ws[k])
  }

  lemma PtrIsPlain(zones: map<GoString, Zone>, serverId: GoString, zoneName: GoString, r: Record, due: bool)
    ensures AllPlain(zones, PutIf(due, PtrRecordForARecord(serverId, zoneName, r)))
  {
  }

  lemma NewRowIsPlain(zones: map<GoString, Zone>, record: Record, ptr: Parsed<Record>, add: bool)
    requires PlainPut(zones, Put(record)) && AllPlain(zones, PutIf(add, ptr))
    ensures AllPlain(zones, NewRowStatements(record, ptr, add))
  {
  }

  lemma IdentifiedIsPlain(zones: map<GoString, Zone>, zone: seq<GoString>, body: Record, add: bool)
    requires |zone| == 2 && (IsA(body.typ) ==> PlainName(body.name))
    ensures var r := Identified(zone, body); AllPlain(zones, NewRowStatements(r, PtrRecordForARecord(zone[0], zone[1], r), add))
  {
    var r := Identified(zone, body);
    PtrIsPlain(zones, zone[0], zone[1], r, add);
    NewRowIsPlain(zones, r, PtrRecordForARecord(zone[0], zone[1], r), add);
  }

  lemma CreateIsPlain(s: Store, body: Record, ready: bool, reply: AgentReply)
    requires IsA(body.typ) ==> PlainName(body.name)
    ensures AllPlain(s.zones, CreateStatements(s, body, ready, reply))
  {
    if CreateReady(s, body, ready) && reply.Done? {
      var zone := DecodeParts(body.zoneId, 2).value;
      IdentifiedIsPlain(s.zones, zone, body, AddsPtr(s, body, zone[0], reply));
    }
  }

  lemma EditIsPlain(zones: map<GoString, Zone>, before: Record, after: Record, oldPtr: Parsed<Record>, newPtr: Parsed<Record>,
                    drop: bool, add: bool)
    requires PlainPut(zones, Put(after)) && AllPlain(zones, PutIf(add, newPtr))
    ensures AllPlain(zones, EditStatements(before, after, oldPtr, newPtr, drop, add))
  {
  }

  lemma UpdateIsPlain(s: Store, id: GoString, text: GoString, createPtr: Option<bool>, ready: bool,
                      reply: AgentReply, ptrCreated: bool, ptrDeleted: bool)
    requires RowsPlain(s)
    ensures AllPlain(s.zones, UpdateStatements(s, id, text, createPtr, ready, reply, ptrCreated, ptrDeleted))
  {
    var d := UpdateDecision(s, id, text, createPtr, ready, reply, ptrCreated, ptrDeleted);
    if d.Rewrite? {
      var parts := DecodeParts(id, 5).value;
      assert d.after.zoneId == s.records[id].zoneId && d.after.name == s.records[id].name && d.after.typ == s.records[id].typ;
      assert PlainPut(s.zones, Put(d.after)) by {
        assert Forward(s, id) && IsA(s.records[id].typ) ==> PlainName(s.records[id].name);
      }
      PtrIsPlain(s.zones, parts[0], parts[1], d.after, d.addPtr);
      EditIsPlain(s.zones, d.before, d.after, d.oldPtr, d.newPtr, d.dropPtr, d.addPtr);
    }
  }

  lemma DeleteIsPlain(s: Store, id: GoString, ready: bool, reply: AgentReply, related: Option<GoString>)
    ensures AllPlain(s.zones, DeleteStatements(s, id, ready, reply, related))
  {
  }

  lemma StatementsArePlain(s: Store, q: Request)
    requires RowsPlain(s) && NamedPlainly(q)
    ensures AllPlain(s.zones, Statements(s, q))
  {
    match q
    case Create(body, ready, reply) =>
      CreateIsPlain(s, body, ready, reply);
    case Update(id, text, createPtr, ready, reply, ptrCreated, ptrDeleted) =>
      UpdateIsPlain(s, id, text, createPtr, ready, reply, ptrCreated, ptrDeleted);
    case Delete(id, ready, reply, related) =>
      DeleteIsPlain(s, id, ready, reply, related);
  }

  // ----- overlapping runs

  ghost predicate AllPendingPlain(o: Progress) {
    forall k :: 0 <= k < |o.pending| ==> AllPlain(o.store.zones, o.pending[k])
  }

  lemma WriteKeepsBase(s: Store, w: Statement)
    requires Base(s) && SpellsItsId(s.zones, w) && PlainPut(s.zones, w) && FitsNow(s, w)
    ensures Base(Write(s, w))
  {
    LateWriteKeepsTidyExactly(s, w);
    WriteKeepsRowsPlain(s, w);
  }

  lemma WriteKeepsRowsPlain(s: Store, w: Statement)
    requires RowsPlain(s) && PlainPut(s.zones, w)
    ensures RowsPlain(Write(s, w))
  {
    var t := Write(s, w);
    forall i | Forward(t, i) && IsA(t.records[i].typ) ensures PlainName(t.records[i].name) {
      assert i in s.records && t.records[i] == s.records[i] ==> Forward(s, i);
    }
  }

  lemma HappenKeepsBase(o: Progress, e: Event)
    requires Base(o.store) && AllPendingSpelled(o) && AllPendingPlain(o) && (e.Check? ==> NamedPlainly(e.q))
    requires CanWrite(o, e) ==> FitsNow(o.store, o.pending[e.k][0])
    ensures Base(Happen(o, e).store) && AllPendingPlain(Happen(o, e))
  {
    match e
    case Check(q) =>
      StatementsArePlain(o.store, q);
    case Next(k) =>
      if CanWrite(o, e) {
        assert SpellsItsId(o.store.zones, o.pending[k][0]) && PlainPut(o.store.zones, o.pending[k][0]);
        WriteKeepsBase(o.store, o.pending[k][0]);
        RestIsPlain(o, k);
      }
  }

  lemma RestIsPlain(o: Progress, k: nat)
    requires AllPendingPlain(o) && k < |o.pending| && o.pending[k] != []
    ensures AllPendingPlain(o.(pending := o.pending[k := o.pending[k][1..]]))
  {
    assert AllPlain(o.store.zones, o.pending[k]);
    assert AllPlain(o.store.zones, o.pending[k][1..]);
  }

  ghost predicate SourcedThroughout(o: Progress, events: seq<Event>)
    decreases |events|
  {
    Sourced(o.store, None) && (events != [] ==> SourcedThroughout(Happen(o, events[0]), events[1..]))
  }

  /** Every write keeps the sources when it happens. */
  ghost predicate AllKeepSource(o: Progress, events: seq<Event>)
    decreases |events|
  {
    events != [] ==>
      && (CanWrite(o, events[0]) ==> KeepsSource(o.store, o.pending[events[0].k][0]))
      && AllKeepSource(Happen(o, events[0]), events[1..])
  }

  lemma HappenKeepsSourcedExactly(o: Progress, e: Event)
    requires Base(o.store) && Sourced(o.store, None) && AllPendingSpelled(o)
    ensures Sourced(Happen(o, e).store, None) <==> (CanWrite(o, e) ==> KeepsSource(o.store, o.pending[e.k][0]))
  {
    if CanWrite(o, e) {
      assert SpellsItsId(o.store.zones, o.pending[e.k][0]);
      LateWriteKeepsSourcedExactly(o.store, o.pending[e.k][0]);
    }
  }

  /** Over every overlapping run that keeps the zone rules and names its A rows plainly, no PTR row is ever
      without its A row exactly when every write keeps the sources when it happens. */
  lemma {:induction false} OverlapIsSourcedExactly(o: Progress, events: seq<Event>)
    requires Base(o.store) && Sourced(o.store, None) && AllPendingSpelled(o) && AllPendingPlain(o)
    requires AllFit(o, events) && forall k :: 0 <= k < |events| && events[k].Check? ==> NamedPlainly(events[k].q)
    ensures SourcedThroughout(o, events) <==> AllKeepSource(o, events)
    decreases |events|
  {
    if events != [] {
      var p := Happen(o, events[0]);
      HappenKeepsSourcedExactly(o, events[0]);
      HappenKeepsSpelled(o, events[0]);
      HappenKeepsBase(o, events[0]);
      if Sourced(p.store, None) {
        OverlapIsSourcedExactly(p, events[1..]);
      }
    }
  }

  // ----- a delete between the writes of a create

  function HostCreate(i: GoString, name: GoString, ip: Ip): Request {
    Create(Host.Body(i, name, ip), true, Done(false))
  }

  function HostDelete(z: Zone, i: GoString, name: GoString, ip: Ip): Request {
    Delete(Host.Row(z, i, name, ip).id, true, Done(false), None)
  }

  /** The create is checked and writes its row. */
  function BeforeDelete(create: Request): seq<Event> {
    [Check(create)] + [Next(0)]
  }

  /** The delete is checked, finds no related row, and removes the row; and the create writes its PTR row. */
  function OrphanRun(create: Request, delete: Request): seq<Event> {
    BeforeDelete(create) + ([Check(delete)] + ([Next(1)] + [Next(0)]))
  }

  lemma HostAddsPtr(s: Store, i: GoString, name: GoString, ip: Ip)
    requires Host.Room(s, i, name, ip)
    ensures AddsPtr(s, Host.Body(i, name, ip), s.zones[i].serverId, Done(false))
  {
    Host.ReverseIsStored(s.zones, i, name, ip);
    assert ReverseZoneExists(s, s.zones[i].serverId, ReverseZone(ip));
    Host.TextsOfA(ip);
  }

  lemma BothPut(r: Record, ptr: Record)
    ensures NewRowStatements(r, Parsed(ptr), true) == [Put(r), Put(ptr)]
  {
    assert [Put(r)] + [Put(ptr)] == [Put(r), Put(ptr)];
  }

  lemma HostRow(s: Store, i: GoString, name: GoString, ip: Ip)
    requires Host.Room(s, i, name, ip)
    ensures RowOf(s.zones, Host.Body(i, name, ip)) == Host.Row(s.zones[i], i, name, ip)
    ensures PtrOfRow(s.zones, Host.Row(s.zones[i], i, name, ip)) == Parsed(Host.PtrFor(s.zones[i], i, name, ip))
  {
    Host.PtrOfRow(s.zones[i], i, name, ip);
  }

  lemma HostStatements(s: Store, i: GoString, name: GoString, ip: Ip)
    requires Host.Room(s, i, name, ip)
    ensures Statements(s, HostCreate(i, name, ip)) ==
            [Put(Host.Row(s.zones[i], i, name, ip)), Put(Host.PtrFor(s.zones[i], i, name, ip))]
  {
    Host.BodyIsReady(s, i, name, ip);
    HostAddsPtr(s, i, name, ip);
    HostRow(s, i, name, ip);
    CreateStatementsAre(s, Host.Body(i, name, ip), true, Done(false));
    BothPut(Host.Row(s.zones[i], i, name, ip), Host.PtrFor(s.zones[i], i, name, ip));
  }

  /** With the row but not its PTR row, a delete finds nothing related. */
  lemma NothingRelated(t: Store, r: Record)
    requires t.records == map[r.id := r] && r.typ == "A" && r.zoneId in t.zones
    ensures Related(t, t.zones[r.zoneId].serverId, t.zones[r.zoneId].name, r, None)
  {
    PtrIsNotA("A");
    assert ToLower("A") == ToLower("A");
  }

  lemma DeleteFindsNothing(t: Store, r: Record)
    requires ZonesOk(t.zones) && t.records == map[r.id := r] && Forward(t, r.id) && Described(t.zones, r.id, r) && r.typ == "A"
    ensures Possible(t, Delete(r.id, true, Done(false), None))
    ensures DeleteStatements(t, r.id, true, Done(false), None) == [Drop(r.id)]
  {
    Host.RowIsDeletable(t, r.id);
    DeleteWrites(t, r.id, true, None, false);
    NothingRelated(t, r);
  }

  lemma NextMakes(o: Progress, k: nat, w: Statement, rest: seq<Statement>)
    requires k < |o.pending| && o.pending[k] == [w] + rest
    ensures Overlap(o, [Next(k)]) == Progress(Write(o.store, w), o.pending[k := rest])
  {
    OneEvent(o, Next(k));
    assert ([w] + rest)[1..] == rest;
  }

  lemma FirstWrite(s: Store, r: Record, ptr: Record)
    ensures Overlap(Progress(s, [[Put(r), Put(ptr)]]), [Next(0)]) == Progress(Upsert(s, r), [[Put(ptr)]])
  {
    var o := Progress(s, [[Put(r), Put(ptr)]]);
    assert [Put(r), Put(ptr)] == [Put(r)] + [Put(ptr)];
    NextMakes(o, 0, Put(r), [Put(ptr)]);
    assert o.pending[0 := [Put(ptr)]] == [[Put(ptr)]];
  }

  lemma Checked(t: Store, pending: seq<seq<Statement>>, q: Request, ws: seq<Statement>)
    requires Statements(t, q) == ws
    ensures Overlap(Progress(t, pending), [Check(q)]) == Progress(t, pending + [ws])
  {
    OneEvent(Progress(t, pending), Check(q));
  }

  lemma FirstHalf(s: Store, r: Record, ptr: Record, checked: seq<Event>)
    requires Overlap(Progress(s, []), checked) == Progress(s, [[Put(r), Put(ptr)]])
    ensures Overlap(Progress(s, []), checked + [Next(0)]) == Progress(Upsert(s, r), [[Put(ptr)]])
  {
    OverlapConcat(Progress(s, []), checked, [Next(0)]);
    FirstWrite(s, r, ptr);
  }

  lemma SecondHalf(t: Store, id: GoString, ptr: Record, checked: seq<Event>)
    requires Overlap(Progress(t, [[Put(ptr)]]), checked) == Progress(t, [[Put(ptr)], [Drop(id)]])
    ensures Overlap(Progress(t, [[Put(ptr)]]), checked + ([Next(1)] + [Next(0)])).store == Upsert(Remove(t, id), ptr)
  {
    OverlapConcat(Progress(t, [[Put(ptr)]]), checked, [Next(1)] + [Next(0)]);
    TwoLastWrites(Progress(t, [[Put(ptr)], [Drop(id)]]), ptr, id);
  }

  lemma BothHalves(s: Store, r: Record, ptr: Record, first: seq<Event>, second: seq<Event>)
    requires Overlap(Progress(s, []), first) == Progress(s, [[Put(r), Put(ptr)]])
    requires Overlap(Progress(Upsert(s, r), [[Put(ptr)]]), second) == Progress(Upsert(s, r), [[Put(ptr)], [Drop(r.id)]])
    ensures Overlap(Progress(s, []), first + [Next(0)]).store == Upsert(s, r)
    ensures Overlap(Progress(s, []), (first + [Next(0)]) + (second + ([Next(1)] + [Next(0)]))).store ==
            Upsert(Remove(Upsert(s, r), r.id), ptr)
  {
    FirstHalf(s, r, ptr, first);
    SecondHalf(Upsert(s, r), r.id, ptr, second);
    OverlapConcat(Progress(s, []), first + [Next(0)], second + ([Next(1)] + [Next(0)]));
  }

  lemma TwoLastWrites(o: Progress, ptr: Record, id: GoString)
    requires o.pending == [[Put(ptr)], [Drop(id)]]
    ensures Overlap(o, [Next(1)] + [Next(0)]).store == Upsert(Remove(o.store, id), ptr)
  {
    var p := Progress(Remove(o.store, id), [[Put(ptr)], []]);
    OverlapConcat(o, [Next(1)], [Next(0)]);
    assert [Drop(id)] == [Drop(id)] + [] && [Put(ptr)] == [Put(ptr)] + [];
    NextMakes(o, 1, Drop(id), []);
    assert o.pending[1 := []] == p.pending;
    NextMakes(p, 0, Put(ptr), []);
  }

  lemma OnlyAPtrRow(s: Store, r: Record, ptr: Record)
    requires s.records == map[] && ptr.zoneId in s.zones && s.zones[ptr.zoneId].reverse && ptr.typ == "PTR" && ptr.ttl > 0
    ensures var t := Upsert(Remove(Upsert(s, r), r.id), ptr); t.records == map[ptr.id := ptr] && PtrRow(t, ptr.id) && !Sourced(t, None)
  {
    var t := Upsert(Remove(Upsert(s, r), r.id), ptr);
    PtrTypeIsPtr();
    assert t.records == map[ptr.id := ptr];
    forall a ensures !IsSource(t, a, ptr) {
    }
  }

  lemma HostDeletes(s: Store, i: GoString, name: GoString, ip: Ip)
    requires Host.Room(s, i, name, ip) && s.records == map[]
    ensures var r, delete := Host.Row(s.zones[i], i, name, ip), HostDelete(s.zones[i], i, name, ip);
            Possible(Upsert(s, r), delete) && Statements(Upsert(s, r), delete) == [Drop(r.id)]
  {
    var r := Host.Row(s.zones[i], i, name, ip);
    RowAlone(s, r);
    DeleteFindsNothing(Upsert(s, r), r);
  }

  lemma RowAlone(s: Store, r: Record)
    requires s.records == map[] && r.zoneId in s.zones && !s.zones[r.zoneId].reverse && r.ttl > 0
    requires r.id == RecordId(s.zones[r.zoneId], r)
    ensures var t := Upsert(s, r); t.records == map[r.id := r] && Forward(t, r.id) && Described(t.zones, r.id, r)
  {
  }

  lemma {:induction false} FirstChecked(s: Store, q: Request, statements: seq<Statement>)
    requires Statements(s, q) == statements
    ensures Overlap(Progress(s, []), [Check(q)]) == Progress(s, [statements])
  {
    Checked(s, [], q, statements);
    assert [] + [statements] == [statements];
  }

  lemma DeleteChecked(t: Store, id: GoString, ptr: Record, delete: Request)
    requires Statements(t, delete) == [Drop(id)]
    ensures Overlap(Progress(t, [[Put(ptr)]]), [Check(delete)]) == Progress(t, [[Put(ptr)], [Drop(id)]])
  {
    Checked(t, [[Put(ptr)]], delete, [Drop(id)]);
    assert [[Put(ptr)]] + [[Drop(id)]] == [[Put(ptr)], [Drop(id)]];
  }

  lemma OrphanRunWrites(s: Store, r: Record, ptr: Record, create: Request, delete: Request)
    requires Statements(s, create) == [Put(r), Put(ptr)] && Statements(Upsert(s, r), delete) == [Drop(r.id)]
    ensures Overlap(Progress(s, []), BeforeDelete(create)).store == Upsert(s, r)
    ensures Overlap(Progress(s, []), OrphanRun(create, delete)).store == Upsert(Remove(Upsert(s, r), r.id), ptr)
  {
    FirstChecked(s, create, [Put(r), Put(ptr)]);
    DeleteChecked(Upsert(s, r), r.id, ptr, delete);
    BothHalves(s, r, ptr, [Check(create)], [Check(delete)]);
  }

  /** From zones without records, wherever an A row and its PTR row can be stored: both requests are
      accepted, the delete's search may find nothing, and at the end there is a PTR row and no A row. */
  lemma OverlapOrphansPtr(zones: map<GoString, Zone>, i: GoString, name: GoString, ip: Ip)
    requires Host.Room(Store(zones, map[]), i, name, ip)
    ensures var o, ptr := Progress(Store(zones, map[]), []), Host.PtrFor(zones[i], i, name, ip);
            var create, delete := HostCreate(i, name, ip), HostDelete(zones[i], i, name, ip);
            var t := Overlap(o, OrphanRun(create, delete)).store;
            && Possible(Overlap(o, BeforeDelete(create)).store, delete)
            && t.records == map[ptr.id := ptr] && PtrRow(t, ptr.id) && !Sourced(t, None)
  {
    var s, r, ptr := Store(zones, map[]), Host.Row(zones[i], i, name, ip), Host.PtrFor(zones[i], i, name, ip);
    HostStatements(s, i, name, ip);
    HostDeletes(s, i, name, ip);
    OrphanRunWrites(s, r, ptr, HostCreate(i, name, ip), HostDelete(zones[i], i, name, ip));
    Host.ReverseIsStored(zones, i, name, ip);
    OnlyAPtrRow(s, r, ptr);
  }
}
