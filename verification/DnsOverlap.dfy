/** Requests that overlap. A handler reads the tables, asks the agent and then writes, and nothing keeps
    another handler from writing in between. Here a request's writes are decided when it is checked and
    happen one at a time, in any order between requests. */
module DnsOverlap {
  import opened Options
  import opened Text
  import opened Ipv4
  import opened ResourceIds
  import opened DnsRecords
  import opened DnsZoneRules

  /** A write to the record table. */
  datatype Statement = Put(row: Record) | Drop(id: GoString)

  function Write(s: Store, w: Statement): (t: Store)
    ensures t.zones == s.zones
  {
    match w
    case Put(row) => Upsert(s, row)
    case Drop(id) => Remove(s, id)
  }

  function WriteAll(s: Store, ws: seq<Statement>): (t: Store)
    ensures t.zones == s.zones
    decreases |ws|
  {
    if ws == [] then s else WriteAll(Write(s, ws[0]), ws[1..])
  }

  function PutIf(due: bool, row: Parsed<Record>): seq<Statement> {
    if due && row.Parsed? then [Put(row.value)] else []
  }

  function DropIf(due: bool, row: Parsed<Record>): seq<Statement> {
    if due && row.Parsed? then [Drop(row.value.id)] else []
  }

  // ----- the writes of each request

  /** Whether a create adds a PTR row. */
  ghost predicate AddsPtr(s: Store, body: Record, serverId: GoString, reply: AgentReply)
    requires reply.Done?
  {
    !WarnsBefore(s, body, serverId) && !reply.warned && IsA(body.typ) && body.createPtr
  }

  function NewRowStatements(record: Record, ptr: Parsed<Record>, add: bool): seq<Statement> {
    [Put(record)] + PutIf(add, ptr)
  }

  ghost function CreateStatements(s: Store, body: Record, ready: bool, reply: AgentReply): seq<Statement> {
    if !CreateReady(s, body, ready) || reply.Failed? then [] else
    var zone := DecodeParts(body.zoneId, 2).value;
    var record := Identified(zone, body);
    NewRowStatements(record, PtrRecordForARecord(zone[0], zone[1], record), AddsPtr(s, body, zone[0], reply))
  }

  function EditStatements(before: Record, after: Record, oldPtr: Parsed<Record>, newPtr: Parsed<Record>, drop: bool, add: bool): seq<Statement> {
    DropIf(drop, oldPtr) + DropIf(!SameText(before.value, after.value), Parsed(before)) + [Put(after)] + PutIf(add, newPtr)
  }

  ghost function UpdateStatements(s: Store, id: GoString, text: GoString, createPtr: Option<bool>, ready: bool,
                                  reply: AgentReply, ptrCreated: bool, ptrDeleted: bool): seq<Statement>
  {
    match UpdateDecision(s, id, text, createPtr, ready, reply, ptrCreated, ptrDeleted)
    case Stop => []
    case Rewrite(before, after, oldPtr, newPtr, dropPtr, addPtr) =>
      EditStatements(before, after, oldPtr, newPtr, dropPtr, addPtr)
  }

  ghost function DeleteStatements(s: Store, id: GoString, ready: bool, reply: AgentReply, related: Option<GoString>): seq<Statement> {
    if !DeleteReady(s, id, ready) || reply.Failed? then []
    else if IsA(DecodeParts(id, 5).value[2]) && related.Some? then [Drop(id), Drop(related.value)]
    else [Drop(id)]
  }

  /** What a request writes, as its checks and the agent decide on these tables. */
  ghost function Statements(s: Store, q: Request): seq<Statement> {
    match q
    case Create(body, ready, reply) => CreateStatements(s, body, ready, reply)
    case Update(id, text, createPtr, ready, reply, ptrCreated, ptrDeleted) =>
      UpdateStatements(s, id, text, createPtr, ready, reply, ptrCreated, ptrDeleted)
    case Delete(id, ready, reply, related) => DeleteStatements(s, id, ready, reply, related)
  }

  lemma {:induction false} WriteAllConcat(s: Store, ws: seq<Statement>, vs: seq<Statement>)
    ensures WriteAll(s, ws + vs) == WriteAll(WriteAll(s, ws), vs)
    decreases |ws|
  {
    if ws == [] {
      assert ws + vs == vs;
    } else {
      assert (ws + vs)[1..] == ws[1..] + vs;
      WriteAllConcat(Write(s, ws[0]), ws[1..], vs);
    }
  }

  lemma WriteOne(s: Store, w: Statement)
    ensures WriteAll(s, [w]) == Write(s, w)
  {
    assert [w][1..] == [];
  }

  lemma WriteIf(s: Store, due: bool, row: Parsed<Record>)
    ensures WriteAll(s, PutIf(due, row)) == if due && row.Parsed? then Upsert(s, row.value) else s
    ensures WriteAll(s, DropIf(due, row)) == if due && row.Parsed? then Remove(s, row.value.id) else s
  {
    if due && row.Parsed? {
      WriteOne(s, Put(row.value));
      WriteOne(s, Drop(row.value.id));
    }
  }

  lemma WriteEdit(s: Store, before: Record, after: Record, oldPtr: Parsed<Record>, newPtr: Parsed<Record>, drop: bool, add: bool)
    ensures WriteAll(s, EditStatements(before, after, oldPtr, newPtr, drop, add)) ==
            WriteUpdate(s, before, after, oldPtr, newPtr, drop, add)
  {
    var a, b, c, d := DropIf(drop, oldPtr), DropIf(!SameText(before.value, after.value), Parsed(before)), [Put(after)], PutIf(add, newPtr);
    WriteAllConcat(s, a + b + c, d);
    WriteAllConcat(s, a + b, c);
    WriteAllConcat(s, a, b);
    WriteIf(s, drop, oldPtr);
    var s1 := WriteAll(s, a);
    WriteIf(s1, !SameText(before.value, after.value), Parsed(before));
    var s2 := WriteAll(s1, b);
    WriteOne(s2, Put(after));
    WriteIf(Upsert(s2, after), add, newPtr);
  }

  lemma WriteNewRow(s: Store, record: Record, ptr: Parsed<Record>, add: bool)
    ensures WriteAll(s, NewRowStatements(record, ptr, add)) == WriteCreate(s, record, ptr, add)
  {
    WriteAllConcat(s, [Put(record)], PutIf(add, ptr));
    WriteOne(s, Put(record));
    WriteIf(Upsert(s, record), add, ptr);
  }

  /** Written at once, they make the request's step. */
  lemma StatementsMakeTheStep(s: Store, q: Request)
    ensures WriteAll(s, Statements(s, q)) == Step(s, q)
  {
    match q
    case Create(body, ready, reply) =>
      CreateStatementsMakeTheStep(s, body, ready, reply);
    case Update(id, text, createPtr, ready, reply, ptrCreated, ptrDeleted) =>
      UpdateStatementsMakeTheStep(s, id, text, createPtr, ready, reply, ptrCreated, ptrDeleted);
    case Delete(id, ready, reply, related) =>
      DeleteStatementsMakeTheStep(s, id, ready, reply, related);
  }

  lemma CreateStatementsMakeTheStep(s: Store, body: Record, ready: bool, reply: AgentReply)
    ensures WriteAll(s, CreateStatements(s, body, ready, reply)) == CreateStep(s, body, ready, reply)
  {
    if CreateReady(s, body, ready) && reply.Done? {
      var zone := DecodeParts(body.zoneId, 2).value;
      var record := Identified(zone, body);
      WriteNewRow(s, record, PtrRecordForARecord(zone[0], zone[1], record), AddsPtr(s, body, zone[0], reply));
    }
  }

  lemma DeleteStatementsMakeTheStep(s: Store, id: GoString, ready: bool, reply: AgentReply, related: Option<GoString>)
    ensures WriteAll(s, DeleteStatements(s, id, ready, reply, related)) == DeleteStep(s, id, ready, reply, related)
  {
    WriteOne(s, Drop(id));
    if related.Some? {
      WriteAllConcat(s, [Drop(id)], [Drop(related.value)]);
      WriteOne(Remove(s, id), Drop(related.value));
      assert [Drop(id), Drop(related.value)] == [Drop(id)] + [Drop(related.value)];
    }
  }

  lemma UpdateStatementsMakeTheStep(s: Store, id: GoString, text: GoString, createPtr: Option<bool>, ready: bool,
                                    reply: AgentReply, ptrCreated: bool, ptrDeleted: bool)
    ensures WriteAll(s, UpdateStatements(s, id, text, createPtr, ready, reply, ptrCreated, ptrDeleted)) ==
            UpdateStep(s, id, text, createPtr, ready, reply, ptrCreated, ptrDeleted)
  {
    var d := UpdateDecision(s, id, text, createPtr, ready, reply, ptrCreated, ptrDeleted);
    if d.Rewrite? {
      WriteEdit(s, d.before, d.after, d.oldPtr, d.newPtr, d.dropPtr, d.addPtr);
    }
  }

  // ----- one late write

  /** A row to be written spells its ID. */
  ghost predicate SpellsItsId(zones: map<GoString, Zone>, w: Statement) {
    w.Put? && w.row.zoneId in zones ==> w.row.id == RecordId(zones[w.row.zoneId], w.row)
  }

  /** A row for a forward zone finds room there; other writes need none. */
  ghost predicate FitsNow(s: Store, w: Statement) {
    w.Put? && w.row.zoneId in s.zones && !s.zones[w.row.zoneId].reverse ==> Fits(s, w.row)
  }

  lemma WriteKeepsSpelled(s: Store, w: Statement)
    requires Spelled(s) && SpellsItsId(s.zones, w)
    ensures Spelled(Write(s, w))
  {
    if w.Put? && w.row.zoneId in s.zones {
      assert Described(s.zones, w.row.id, Normalized(w.row));
    }
  }

  lemma MisfitClashes(s: Store, r: Record, id: GoString)
    requires r.zoneId in s.zones && !s.zones[r.zoneId].reverse
    requires Forward(s, id) && id != r.id && s.records[id].zoneId == r.zoneId && !Compatible(s.records[id], r)
    ensures !Tidy(Upsert(s, r))
  {
    var t := Upsert(s, r);
    assert Forward(t, id) && t.records[id] == s.records[id];
    assert Forward(t, r.id) && t.records[r.id] == Normalized(r);
    assert !Compatible(t.records[id], t.records[r.id]);
  }

  /** Whenever it happens, a write keeps the zone rules exactly when it fits then. */
  lemma LateWriteKeepsTidyExactly(s: Store, w: Statement)
    requires Tidy(s) && SpellsItsId(s.zones, w)
    ensures Tidy(Write(s, w)) <==> FitsNow(s, w)
  {
    match w
    case Drop(id) =>
      RemoveKeepsTidy(s, id);
    case Put(r) =>
      if FitsNow(s, w) {
        UpsertKeepsTidy(s, r);
      } else {
        var id :| Forward(s, id) && id != r.id && s.records[id].zoneId == r.zoneId && !Compatible(s.records[id], r);
        MisfitClashes(s, r, id);
      }
  }

  // ----- requests spell the IDs of what they write

  ghost predicate AllSpelled(zones: map<GoString, Zone>, ws: seq<Statement>) {
    forall k :: 0 <= k < |ws| ==> SpellsItsId(zones, ws[k])
  }

  lemma PtrSpellsItsId(zones: map<GoString, Zone>, serverId: GoString, zoneName: GoString, r: Record, due: bool)
    requires ZonesOk(zones)
    ensures AllSpelled(zones, PutIf(due, PtrRecordForARecord(serverId, zoneName, r)))
  {
    var ptr := PtrRecordForARecord(serverId, zoneName, r);
    if ptr.Parsed? {
      PtrIsDescribed(zones, serverId, zoneName, r, ptr.value);
    }
  }

  lemma NewRowSpells(zones: map<GoString, Zone>, record: Record, ptr: Parsed<Record>, add: bool)
    requires SpellsItsId(zones, Put(record)) && AllSpelled(zones, PutIf(add, ptr))
    ensures AllSpelled(zones, NewRowStatements(record, ptr, add))
  {
  }

  /** The row a create writes, and its PTR row. */
  ghost function RowOf(zones: map<GoString, Zone>, body: Record): Record
    requires body.zoneId in zones
  {
    Normalized(body.(id := RecordId(zones[body.zoneId], body)))
  }

  ghost function PtrOfRow(zones: map<GoString, Zone>, r: Record): Parsed<Record>
    requires r.zoneId in zones
  {
    PtrRecordForARecord(zones[r.zoneId].serverId, zones[r.zoneId].name, r)
  }

  lemma IdentifiedIsRow(zones: map<GoString, Zone>, body: Record)
    requires ZonesOk(zones) && body.zoneId in zones
    ensures var zone := DecodeParts(body.zoneId, 2);
            && zone.Decoded? && zone.value[0] == zones[body.zoneId].serverId && zone.value[1] == zones[body.zoneId].name
            && Identified(zone.value, body) == RowOf(zones, body)
  {
    ZoneOfId(zones, body.zoneId);
    IdentifiedIn(zones[body.zoneId], body);
  }

  lemma CreateStatementsAre(s: Store, body: Record, ready: bool, reply: AgentReply)
    requires ZonesOk(s.zones) && CreateReady(s, body, ready) && reply.Done?
    ensures var r := RowOf(s.zones, body);
            CreateStatements(s, body, ready, reply) ==
            NewRowStatements(r, PtrOfRow(s.zones, r), AddsPtr(s, body, s.zones[body.zoneId].serverId, reply))
  {
    IdentifiedIsRow(s.zones, body);
  }

  lemma RowOfSpells(zones: map<GoString, Zone>, body: Record, add: bool)
    requires ZonesOk(zones) && body.zoneId in zones
    ensures AllSpelled(zones, NewRowStatements(RowOf(zones, body), PtrOfRow(zones, RowOf(zones, body)), add))
  {
    var r, z := RowOf(zones, body), zones[body.zoneId];
    PtrSpellsItsId(zones, z.serverId, z.name, r, add);
    NewRowSpells(zones, r, PtrOfRow(zones, r), add);
  }

  lemma CreateSpells(s: Store, body: Record, ready: bool, reply: AgentReply)
    requires Spelled(s)
    ensures AllSpelled(s.zones, CreateStatements(s, body, ready, reply))
  {
    if CreateReady(s, body, ready) && reply.Done? {
      CreateStatementsAre(s, body, ready, reply);
      RowOfSpells(s.zones, body, AddsPtr(s, body, s.zones[body.zoneId].serverId, reply));
    }
  }

  lemma EditSpells(zones: map<GoString, Zone>, before: Record, after: Record, oldPtr: Parsed<Record>, newPtr: Parsed<Record>,
                   drop: bool, add: bool)
    requires SpellsItsId(zones, Put(after)) && AllSpelled(zones, PutIf(add, newPtr))
    ensures AllSpelled(zones, EditStatements(before, after, oldPtr, newPtr, drop, add))
  {
  }

  lemma UpdatedSpells(zones: map<GoString, Zone>, id: GoString, before: Record, parts: seq<GoString>, value: GoString, createPtr: Option<bool>)
    requires Described(zones, id, before) && DecodeParts(id, 5) == Decoded(parts) && |parts| == 5
    ensures SpellsItsId(zones, Put(Updated(before, parts, value, createPtr)))
  {
    FieldsOfId(zones, id, before);
  }

  lemma UpdateSpells(s: Store, id: GoString, text: GoString, createPtr: Option<bool>, ready: bool,
                     reply: AgentReply, ptrCreated: bool, ptrDeleted: bool)
    requires Spelled(s)
    ensures AllSpelled(s.zones, UpdateStatements(s, id, text, createPtr, ready, reply, ptrCreated, ptrDeleted))
  {
    var d := UpdateDecision(s, id, text, createPtr, ready, reply, ptrCreated, ptrDeleted);
    if d.Rewrite? {
      var parts := DecodeParts(id, 5).value;
      UpdatedSpells(s.zones, id, d.before, parts, TrimSpace(text), createPtr);
      PtrSpellsItsId(s.zones, parts[0], parts[1], d.after, d.addPtr);
      EditSpells(s.zones, d.before, d.after, d.oldPtr, d.newPtr, d.dropPtr, d.addPtr);
    }
  }

  lemma DeleteSpells(s: Store, id: GoString, ready: bool, reply: AgentReply, related: Option<GoString>)
    ensures AllSpelled(s.zones, DeleteStatements(s, id, ready, reply, related))
  {
  }

  lemma StatementsSpell(s: Store, q: Request)
    requires Spelled(s)
    ensures AllSpelled(s.zones, Statements(s, q))
  {
    match q
    case Create(body, ready, reply) =>
      CreateSpells(s, body, ready, reply);
    case Update(id, text, createPtr, ready, reply, ptrCreated, ptrDeleted) =>
      UpdateSpells(s, id, text, createPtr, ready, reply, ptrCreated, ptrDeleted);
    case Delete(id, ready, reply, related) =>
      DeleteSpells(s, id, ready, reply, related);
  }

  // ----- overlapping requests

  /** The tables, and for each request in progress the writes it still has to make. */
  datatype Progress = Progress(store: Store, pending: seq<seq<Statement>>)

  /** A request is checked, or the `k`-th one in progress makes its next write. */
  datatype Event = Check(q: Request) | Next(k: nat)

  ghost predicate CanWrite(o: Progress, e: Event) {
    e.Next? && e.k < |o.pending| && o.pending[e.k] != []
  }

  ghost function Happen(o: Progress, e: Event): (p: Progress)
    ensures p.store.zones == o.store.zones
  {
    match e
    case Check(q) => o.(pending := o.pending + [Statements(o.store, q)])
    case Next(k) =>
      if CanWrite(o, e)
      then Progress(Write(o.store, o.pending[k][0]), o.pending[k := o.pending[k][1..]])
      else o
  }

  ghost function Overlap(o: Progress, events: seq<Event>): (p: Progress)
    ensures p.store.zones == o.store.zones
    decreases |events|
  {
    if events == [] then o else Overlap(Happen(o, events[0]), events[1..])
  }

  ghost predicate AllPendingSpelled(o: Progress) {
    forall k :: 0 <= k < |o.pending| ==> AllSpelled(o.store.zones, o.pending[k])
  }

  lemma HappenKeepsSpelled(o: Progress, e: Event)
    requires Spelled(o.store) && AllPendingSpelled(o)
    ensures Spelled(Happen(o, e).store) && AllPendingSpelled(Happen(o, e))
  {
    match e
    case Check(q) =>
      StatementsSpell(o.store, q);
    case Next(k) =>
      if CanWrite(o, e) {
        assert SpellsItsId(o.store.zones, o.pending[k][0]);
        WriteKeepsSpelled(o.store, o.pending[k][0]);
        RestIsSpelled(o, k);
      }
  }

  lemma RestIsSpelled(o: Progress, k: nat)
    requires AllPendingSpelled(o) && k < |o.pending| && o.pending[k] != []
    ensures AllPendingSpelled(o.(pending := o.pending[k := o.pending[k][1..]]))
  {
    assert AllSpelled(o.store.zones, o.pending[k]);
    assert AllSpelled(o.store.zones, o.pending[k][1..]);
  }

  /** However requests overlap, every row's ID spells its zone, type, name and value. */
  lemma {:induction false} OverlapKeepsSpelled(o: Progress, events: seq<Event>)
    requires Spelled(o.store) && AllPendingSpelled(o)
    ensures Spelled(Overlap(o, events).store)
    decreases |events|
  {
    if events != [] {
      HappenKeepsSpelled(o, events[0]);
      OverlapKeepsSpelled(Happen(o, events[0]), events[1..]);
    }
  }

  ghost predicate TidyThroughout(o: Progress, events: seq<Event>)
    decreases |events|
  {
    Tidy(o.store) && (events != [] ==> TidyThroughout(Happen(o, events[0]), events[1..]))
  }

  /** Every write fits when it happens. */
  ghost predicate AllFit(o: Progress, events: seq<Event>)
    decreases |events|
  {
    events != [] ==>
      && (CanWrite(o, events[0]) ==> FitsNow(o.store, o.pending[events[0].k][0]))
      && AllFit(Happen(o, events[0]), events[1..])
  }

  lemma HappenKeepsTidyExactly(o: Progress, e: Event)
    requires Tidy(o.store) && AllPendingSpelled(o)
    ensures Tidy(Happen(o, e).store) <==> (CanWrite(o, e) ==> FitsNow(o.store, o.pending[e.k][0]))
  {
    if CanWrite(o, e) {
      assert SpellsItsId(o.store.zones, o.pending[e.k][0]);
      LateWriteKeepsTidyExactly(o.store, o.pending[e.k][0]);
    }
  }

  /** Over every overlapping run, the zone rules hold all along exactly when every write fits when it happens. */
  lemma {:induction false} OverlapIsTidyExactly(o: Progress, events: seq<Event>)
    requires Tidy(o.store) && AllPendingSpelled(o)
    ensures TidyThroughout(o, events) <==> AllFit(o, events)
    decreases |events|
  {
    if events != [] {
      var p := Happen(o, events[0]);
      HappenKeepsTidyExactly(o, events[0]);
      HappenKeepsSpelled(o, events[0]);
      if Tidy(p.store) {
        OverlapIsTidyExactly(p, events[1..]);
      }
    }
  }

  // ----- one request after another

  function Nexts(k: nat, n: nat): seq<Event> {
    if n == 0 then [] else [Next(k)] + Nexts(k, n - 1)
  }

  lemma {:induction false} OverlapConcat(o: Progress, events: seq<Event>, more: seq<Event>)
    ensures Overlap(o, events + more) == Overlap(Overlap(o, events), more)
    decreases |events|
  {
    if events == [] {
      assert events + more == more;
    } else {
      assert (events + more)[1..] == events[1..] + more;
      OverlapConcat(Happen(o, events[0]), events[1..], more);
    }
  }

  /** A request that makes all its writes in a row. */
  lemma {:induction false} WriteOut(o: Progress, k: nat)
    requires k < |o.pending|
    ensures Overlap(o, Nexts(k, |o.pending[k]|)) == Progress(WriteAll(o.store, o.pending[k]), o.pending[k := []])
    decreases if k < |o.pending| then |o.pending[k]| else 0
  {
    if o.pending[k] == [] {
      assert o.pending[k := []] == o.pending;
    } else {
      var p := Happen(o, Next(k));
      WriteOut(p, k);
      assert p.pending[k := []] == o.pending[k := []];
      assert Nexts(k, |o.pending[k]|)[1..] == Nexts(k, |p.pending[k]|);
    }
  }

  lemma OneInTurn(s: Store, pending: seq<seq<Statement>>, ws: seq<Statement>)
    ensures Overlap(Progress(s, pending + [ws]), Nexts(|pending|, |ws|)) == Progress(WriteAll(s, ws), pending + [[]])
  {
    var all := pending + [ws];
    assert all[|pending|] == ws && all[|pending| := []] == pending + [[]];
    WriteOut(Progress(s, all), |pending|);
  }

  lemma OneEvent(o: Progress, e: Event)
    ensures Overlap(o, [e]) == Happen(o, e)
  {
    assert [e][1..] == [];
  }

  lemma FirstEvent(o: Progress, e: Event, more: seq<Event>)
    ensures Overlap(o, [e] + more) == Overlap(Happen(o, e), more)
  {
    OverlapConcat(o, [e], more);
    OneEvent(o, e);
  }

  lemma CheckFirst(o: Progress, q: Request, more: seq<Event>)
    ensures Overlap(o, [Check(q)] + more) == Overlap(Progress(o.store, o.pending + [Statements(o.store, q)]), more)
  {
    FirstEvent(o, Check(q), more);
  }

  /** A request that nothing overlaps makes its step. */
  lemma AloneIsAStep(o: Progress, q: Request)
    ensures Overlap(o, [Check(q)] + Nexts(|o.pending|, |Statements(o.store, q)|)) ==
            Progress(Step(o.store, q), o.pending + [[]])
  {
    var ws := Statements(o.store, q);
    StatementsMakeTheStep(o.store, q);
    OneInTurn(o.store, o.pending, ws);
    FirstEvent(o, Check(q), Nexts(|o.pending|, |ws|));
  }

  ghost function OneByOne(s: Store, requests: seq<Request>, k: nat): seq<Event>
    decreases |requests|
  {
    if requests == [] then []
    else [Check(requests[0])] + Nexts(k, |Statements(s, requests[0])|) + OneByOne(Step(s, requests[0]), requests[1..], k + 1)
  }

  /** A run of whole requests is one overlapping run. */
  lemma {:induction false} RunIsAnOverlap(o: Progress, requests: seq<Request>)
    ensures Overlap(o, OneByOne(o.store, requests, |o.pending|)).store == Run(o.store, requests)
    decreases |requests|
  {
    if requests != [] {
      var q := requests[0];
      var p := Progress(Step(o.store, q), o.pending + [[]]);
      AloneIsAStep(o, q);
      OverlapConcat(o, [Check(q)] + Nexts(|o.pending|, |Statements(o.store, q)|), OneByOne(p.store, requests[1..], |p.pending|));
      RunIsAnOverlap(p, requests[1..]);
    }
  }
}
