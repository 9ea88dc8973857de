/** Two creates that overlap: both are accepted before either writes, and then their writes come in any order. */
module DnsTwoCreates {
  import opened Text
  import opened Ipv4
  import opened DnsNames
  import opened PtrNames
  import opened ResourceIds
  import opened DnsRecords
  import opened DnsZoneRules
  import opened DnsPtrNames
  import opened DnsOverlap

  // ----- two requests checked before either writes

  /** Both are checked, and then come these writes. */
  ghost function BothChecked(q: Request, p: Request, writes: seq<Event>): seq<Event> {
    [Check(q)] + ([Check(p)] + writes)
  }

  /** All writes of both requests are made. */
  ghost predicate WritesOut(s: Store, q: Request, p: Request, writes: seq<Event>) {
    && (forall k :: 0 <= k < |writes| ==> writes[k].Next?)
    && Overlap(Progress(s, []), BothChecked(q, p, writes)).pending == [[], []]
  }

  lemma TwoChecks(s: Store, q: Request, p: Request, ws: seq<Statement>, more: seq<Event>)
    requires ws == Statements(s, q)
    ensures Overlap(Progress(s, []), BothChecked(q, p, more)) == Overlap(Progress(s, [ws, Statements(s, p)]), more)
  {
    CheckFirst(Progress(s, []), q, [Check(p)] + more);
    assert [] + [ws] == [ws];
    SecondCheck(s, ws, p, more);
  }

  lemma SecondCheck(s: Store, ws: seq<Statement>, p: Request, more: seq<Event>)
    ensures Overlap(Progress(s, [ws]), [Check(p)] + more) == Overlap(Progress(s, [ws, Statements(s, p)]), more)
  {
    CheckFirst(Progress(s, [ws]), p, more);
    assert [ws] + [Statements(s, p)] == [ws, Statements(s, p)];
  }

  // ----- the rows of two creates

  /** A row in the same zone with the same texts. */
  predicate Says(row: Record, r: Record) {
    row.zoneId == r.zoneId && row.name == r.name && row.typ == r.typ && row.value == r.value
  }

  /** In forward zones, `t` is `s` but for the two rows, of which those done are there. */
  ghost predicate RowsThere(s: Store, t: Store, r: Record, q: Record, done: bool, otherDone: bool) {
    && t.zones == s.zones
    && (forall id | id != r.id && id != q.id :: (Forward(t, id) <==> Forward(s, id)) && (Forward(s, id) ==> t.records[id] == s.records[id]))
    && (done ==> Forward(t, r.id) && Says(t.records[r.id], r))
    && (otherDone ==> Forward(t, q.id) && Says(t.records[q.id], q))
  }

  ghost predicate Between(s: Store, t: Store, r: Record, q: Record, done: bool, otherDone: bool) {
    Spelled(t) && RowsThere(s, t, r, q, done, otherDone)
  }

  /** A row a create may write to a forward zone. */
  ghost predicate NewRow(zones: map<GoString, Zone>, r: Record) {
    r.zoneId in zones && !zones[r.zoneId].reverse && r.id == RecordId(zones[r.zoneId], r) && r.ttl > 0
  }

  lemma SameIdSameTexts(zones: map<GoString, Zone>, r: Record, q: Record)
    requires OwnIds(zones) && NewRow(zones, r) && NewRow(zones, q)
    ensures r.id == q.id <==> Says(r, q)
  {
    RecordIdIsInjective(zones[r.zoneId], r, zones[q.zoneId], q);
  }

  lemma SaysCompatible(a: Record, r: Record, b: Record, q: Record)
    requires Says(a, r) && Says(b, q)
    ensures Compatible(a, b) <==> Compatible(r, q)
  {
  }

  /** With both rows there, the rules hold exactly if the rows may stand side by side. */
  lemma BothThere(s: Store, t: Store, r: Record, q: Record)
    requires Tidy(s) && Fits(s, r) && Fits(s, q) && Between(s, t, r, q, true, true)
    ensures Tidy(t) <==> (r.zoneId == q.zoneId && r.id != q.id ==> Compatible(r, q))
  {
    SaysCompatible(t.records[r.id], r, t.records[q.id], q);
    if r.zoneId == q.zoneId && r.id != q.id ==> Compatible(r, q) {
      forall i, j | Forward(t, i) && Forward(t, j) && i != j && t.records[i].zoneId == t.records[j].zoneId
        ensures Compatible(t.records[i], t.records[j])
      {
        PairIsCompatible(s, t, r, q, i, j);
      }
    }
  }

  /** Two rows that were there. */
  lemma OldPair(s: Store, t: Store, r: Record, q: Record, i: GoString, j: GoString)
    requires Tidy(s) && RowsThere(s, t, r, q, true, true)
    requires Forward(t, i) && Forward(t, j) && i != j && t.records[i].zoneId == t.records[j].zoneId
    requires i != r.id && i != q.id && j != r.id && j != q.id
    ensures Compatible(t.records[i], t.records[j])
  {
    assert Forward(s, i) && Forward(s, j);
  }

  /** A row that was there and one of the two. */
  lemma OldAndNew(s: Store, t: Store, r: Record, q: Record, i: GoString, x: Record)
    requires Fits(s, x) && RowsThere(s, t, r, q, true, true) && (x == r || x == q)
    requires Forward(t, i) && i != r.id && i != q.id && t.records[i].zoneId == x.zoneId
    ensures Compatible(t.records[i], t.records[x.id]) && Compatible(t.records[x.id], t.records[i])
  {
    assert Forward(s, i) && Compatible(s.records[i], x);
    CompatibleBothWays(t.records[i], x, t.records[x.id]);
  }

  lemma BothNew(s: Store, t: Store, r: Record, q: Record)
    requires RowsThere(s, t, r, q, true, true) && Compatible(r, q)
    ensures Compatible(t.records[r.id], t.records[q.id]) && Compatible(t.records[q.id], t.records[r.id])
  {
    SaysCompatible(t.records[r.id], r, t.records[q.id], q);
    CompatibleBothWays(t.records[r.id], t.records[q.id], t.records[q.id]);
  }

  /** One of the two and any row. */
  lemma NewPair(s: Store, t: Store, r: Record, q: Record, i: GoString, j: GoString)
    requires Fits(s, r) && Fits(s, q) && RowsThere(s, t, r, q, true, true)
    requires r.zoneId == q.zoneId && r.id != q.id ==> Compatible(r, q)
    requires Forward(t, i) && Forward(t, j) && i != j && t.records[i].zoneId == t.records[j].zoneId
    requires i == r.id || i == q.id
    ensures Compatible(t.records[i], t.records[j]) && Compatible(t.records[j], t.records[i])
  {
    if j == r.id || j == q.id {
      BothNew(s, t, r, q);
    } else {
      OldAndNew(s, t, r, q, j, if i == r.id then r else q);
    }
  }

  lemma PairIsCompatible(s: Store, t: Store, r: Record, q: Record, i: GoString, j: GoString)
    requires Tidy(s) && Fits(s, r) && Fits(s, q) && RowsThere(s, t, r, q, true, true)
    requires r.zoneId == q.zoneId && r.id != q.id ==> Compatible(r, q)
    requires Forward(t, i) && Forward(t, j) && i != j && t.records[i].zoneId == t.records[j].zoneId
    ensures Compatible(t.records[i], t.records[j])
  {
    if i == r.id || i == q.id {
      NewPair(s, t, r, q, i, j);
    } else if j == r.id || j == q.id {
      NewPair(s, t, r, q, j, i);
    } else {
      OldPair(s, t, r, q, i, j);
    }
  }

  // ----- their writes

  lemma Swapped(s: Store, t: Store, r: Record, q: Record, done: bool, otherDone: bool)
    requires Between(s, t, r, q, done, otherDone)
    ensures Between(s, t, q, r, otherDone, done)
  {
  }

  lemma RowPut(s: Store, t: Store, r: Record, q: Record, done: bool, otherDone: bool)
    requires RowsThere(s, t, r, q, done, otherDone) && (r.id == q.id ==> Says(r, q))
    requires r.zoneId in s.zones && !s.zones[r.zoneId].reverse && r.ttl > 0
    ensures RowsThere(s, Upsert(t, r), r, q, true, otherDone)
  {
  }

  lemma RowWritten(s: Store, t: Store, r: Record, q: Record, done: bool, otherDone: bool)
    requires Between(s, t, r, q, done, otherDone) && NewRow(s.zones, r) && (r.id == q.id ==> Says(r, q))
    ensures Between(s, Upsert(t, r), r, q, true, otherDone)
  {
    WriteKeepsSpelled(t, Put(r));
    RowPut(s, t, r, q, done, otherDone);
  }

  lemma PtrIsNoForwardRow(t: Store, r: Record, ptr: Record)
    requires Spelled(t) && r.zoneId in t.zones && PtrOfRow(t.zones, r) == Parsed(ptr)
    ensures !Forward(t, ptr.id) && SpellsItsId(t.zones, Put(ptr)) && (ptr.zoneId in t.zones ==> t.zones[ptr.zoneId].reverse)
  {
    var z := t.zones[r.zoneId];
    PtrIsDescribed(t.zones, z.serverId, z.name, r, ptr);
    if Forward(t, ptr.id) {
      PtrIsElsewhere(t, ptr.id, z.serverId, z.name, r);
    }
  }

  lemma ReverseRowWritten(s: Store, t: Store, r: Record, q: Record, done: bool, otherDone: bool, ptr: Record)
    requires Between(s, t, r, q, done, otherDone)
    requires !Forward(t, ptr.id) && SpellsItsId(t.zones, Put(ptr)) && (ptr.zoneId in t.zones ==> t.zones[ptr.zoneId].reverse)
    ensures Between(s, Upsert(t, ptr), r, q, done, otherDone)
  {
    WriteKeepsSpelled(t, Put(ptr));
    ForwardStays(t, ptr);
  }

  lemma ForwardStays(t: Store, ptr: Record)
    requires !Forward(t, ptr.id) && (ptr.zoneId in t.zones ==> t.zones[ptr.zoneId].reverse)
    ensures forall id :: (Forward(Upsert(t, ptr), id) <==> Forward(t, id)) && (Forward(t, id) ==> Upsert(t, ptr).records[id] == t.records[id])
  {
  }

  /** A create's writes. */
  ghost function RowStatements(zones: map<GoString, Zone>, r: Record, add: bool): seq<Statement>
    requires r.zoneId in zones
  {
    NewRowStatements(r, PtrOfRow(zones, r), add)
  }

  /** The next write of one of the creates. */
  lemma NextWrite(s: Store, t: Store, r: Record, q: Record, add: bool, made: nat, otherDone: bool)
    requires NewRow(s.zones, r) && (r.id == q.id ==> Says(r, q)) && made < |RowStatements(s.zones, r, add)|
    requires Between(s, t, r, q, made > 0, otherDone)
    ensures Between(s, Write(t, RowStatements(s.zones, r, add)[made]), r, q, true, otherDone)
  {
    if made == 0 {
      RowWritten(s, t, r, q, false, otherDone);
    } else {
      var ptr := PtrOfRow(s.zones, r).value;
      PtrIsNoForwardRow(t, r, ptr);
      ReverseRowWritten(s, t, r, q, true, otherDone, ptr);
    }
  }

  /** The creates have made so many of their writes. */
  ghost predicate Underway(s: Store, o: Progress, ws: seq<Statement>, vs: seq<Statement>, made: nat, otherMade: nat) {
    made <= |ws| && otherMade <= |vs| && o.pending == [ws[made..], vs[otherMade..]] && o.store.zones == s.zones
  }

  lemma NextUnderway(s: Store, o: Progress, ws: seq<Statement>, vs: seq<Statement>, made: nat, otherMade: nat, k: nat)
    requires Underway(s, o, ws, vs, made, otherMade)
    ensures var p := Happen(o, Next(k));
            && (k == 0 && made < |ws| ==> Underway(s, p, ws, vs, made + 1, otherMade) && p.store == Write(o.store, ws[made]))
            && (k == 1 && otherMade < |vs| ==> Underway(s, p, ws, vs, made, otherMade + 1) && p.store == Write(o.store, vs[otherMade]))
            && (!(k == 0 && made < |ws|) && !(k == 1 && otherMade < |vs|) ==> p == o)
  {
    if k == 0 && made < |ws| {
      assert ws[made..][0] == ws[made] && ws[made..][1..] == ws[made + 1..];
    } else if k == 1 && otherMade < |vs| {
      assert vs[otherMade..][0] == vs[otherMade] && vs[otherMade..][1..] == vs[otherMade + 1..];
    }
  }

  /** Two creates at work. */
  ghost predicate AtWork(s: Store, o: Progress, r: Record, q: Record, add: bool, otherAdd: bool, made: nat, otherMade: nat) {
    && NewRow(s.zones, r) && NewRow(s.zones, q) && (r.id == q.id ==> Says(r, q) && Says(q, r))
    && Underway(s, o, RowStatements(s.zones, r, add), RowStatements(s.zones, q, otherAdd), made, otherMade)
    && Between(s, o.store, r, q, made > 0, otherMade > 0)
  }

  lemma FirstWrites(s: Store, o: Progress, r: Record, q: Record, add: bool, otherAdd: bool, made: nat, otherMade: nat)
    requires AtWork(s, o, r, q, add, otherAdd, made, otherMade) && made < |RowStatements(s.zones, r, add)|
    ensures AtWork(s, Happen(o, Next(0)), r, q, add, otherAdd, made + 1, otherMade)
  {
    NextUnderway(s, o, RowStatements(s.zones, r, add), RowStatements(s.zones, q, otherAdd), made, otherMade, 0);
    NextWrite(s, o.store, r, q, add, made, otherMade > 0);
  }

  lemma SecondWrites(s: Store, o: Progress, r: Record, q: Record, add: bool, otherAdd: bool, made: nat, otherMade: nat)
    requires AtWork(s, o, r, q, add, otherAdd, made, otherMade) && otherMade < |RowStatements(s.zones, q, otherAdd)|
    ensures AtWork(s, Happen(o, Next(1)), r, q, add, otherAdd, made, otherMade + 1)
  {
    NextUnderway(s, o, RowStatements(s.zones, r, add), RowStatements(s.zones, q, otherAdd), made, otherMade, 1);
    Swapped(s, o.store, r, q, made > 0, otherMade > 0);
    NextWrite(s, o.store, q, r, otherAdd, otherMade, made > 0);
    Swapped(s, Happen(o, Next(1)).store, q, r, true, made > 0);
  }

  /** How far the creates are after an event. */
  function More(made: nat, all: nat, mine: bool): (m: nat) {
    if mine && made < all then made + 1 else made
  }

  lemma OneWrites(s: Store, o: Progress, r: Record, q: Record, add: bool, otherAdd: bool, made: nat, otherMade: nat, k: nat)
    requires AtWork(s, o, r, q, add, otherAdd, made, otherMade)
    ensures AtWork(s, Happen(o, Next(k)), r, q, add, otherAdd, More(made, |RowStatements(s.zones, r, add)|, k == 0),
                   More(otherMade, |RowStatements(s.zones, q, otherAdd)|, k == 1))
  {
    if k == 0 && made < |RowStatements(s.zones, r, add)| {
      FirstWrites(s, o, r, q, add, otherAdd, made, otherMade);
    } else if k == 1 && otherMade < |RowStatements(s.zones, q, otherAdd)| {
      SecondWrites(s, o, r, q, add, otherAdd, made, otherMade);
    } else {
      NextUnderway(s, o, RowStatements(s.zones, r, add), RowStatements(s.zones, q, otherAdd), made, otherMade, k);
    }
  }

  lemma AllMade(s: Store, o: Progress, r: Record, q: Record, add: bool, otherAdd: bool, made: nat, otherMade: nat)
    requires AtWork(s, o, r, q, add, otherAdd, made, otherMade) && o.pending == [[], []]
    ensures Between(s, o.store, r, q, true, true)
  {
    var ws, vs := RowStatements(s.zones, r, add), RowStatements(s.zones, q, otherAdd);
    assert ws[made..] == o.pending[0] == [] && vs[otherMade..] == o.pending[1] == [];
  }

  /** Whatever the order, when all writes are made both rows are there. */
  lemma {:induction false} AnyOrder(s: Store, o: Progress, r: Record, q: Record, add: bool, otherAdd: bool,
                                    made: nat, otherMade: nat, writes: seq<Event>)
    requires AtWork(s, o, r, q, add, otherAdd, made, otherMade)
    requires forall k :: 0 <= k < |writes| ==> writes[k].Next?
    ensures Overlap(o, writes).pending == [[], []] ==> Between(s, Overlap(o, writes).store, r, q, true, true)
    decreases |writes|
  {
    if writes == [] {
      if o.pending == [[], []] {
        AllMade(s, o, r, q, add, otherAdd, made, otherMade);
      }
    } else {
      var k := writes[0].k;
      OneWrites(s, o, r, q, add, otherAdd, made, otherMade, k);
      AnyOrder(s, Happen(o, writes[0]), r, q, add, otherAdd, More(made, |RowStatements(s.zones, r, add)|, k == 0),
               More(otherMade, |RowStatements(s.zones, q, otherAdd)|, k == 1), writes[1..]);
    }
  }

  // ----- the theorem

  lemma CreateWritesRow(s: Store, body: Record, reply: AgentReply)
    requires Tidy(s) && CreateReady(s, body, true) && reply.Done?
    ensures var r := RowOf(s.zones, body);
            && Fits(s, r) && NewRow(s.zones, r)
            && CreateStatements(s, body, true, reply) == RowStatements(s.zones, r, AddsPtr(s, body, s.zones[body.zoneId].serverId, reply))
  {
    CreateStatementsAre(s, body, true, reply);
    CreateFits(s, body, RowOf(s.zones, body));
  }

  /** Of the same type, name and value, letter for letter. */
  predicate Alike(body: Record, other: Record) {
    body.typ == other.typ && body.name == other.name && body.value == other.value
  }

  lemma RowsAsBodies(zones: map<GoString, Zone>, body: Record, other: Record)
    requires body.zoneId in zones && other.zoneId in zones
    ensures var r, q := RowOf(zones, body), RowOf(zones, other);
            (r.zoneId == q.zoneId && r.id != q.id ==> Compatible(r, q)) <==>
            (body.zoneId != other.zoneId || Alike(body, other) || Compatible(body, other))
  {
    var r, q := RowOf(zones, body), RowOf(zones, other);
    RecordIdIsInjective(zones[body.zoneId], r, zones[other.zoneId], q);
    assert Compatible(r, q) <==> Compatible(body, other);
  }

  ghost function BothRows(s: Store, r: Record, q: Record, add: bool, otherAdd: bool): Progress
    requires r.zoneId in s.zones && q.zoneId in s.zones
  {
    Progress(s, [RowStatements(s.zones, r, add), RowStatements(s.zones, q, otherAdd)])
  }

  lemma AtWorkAtFirst(s: Store, r: Record, q: Record, add: bool, otherAdd: bool)
    requires Spelled(s) && NewRow(s.zones, r) && NewRow(s.zones, q)
    ensures AtWork(s, BothRows(s, r, q, add, otherAdd), r, q, add, otherAdd, 0, 0)
  {
    var ws, vs := RowStatements(s.zones, r, add), RowStatements(s.zones, q, otherAdd);
    SameIdSameTexts(s.zones, r, q);
    assert ws[0..] == ws && vs[0..] == vs;
  }

  lemma TwoRowsInAnyOrder(s: Store, r: Record, q: Record, add: bool, otherAdd: bool, writes: seq<Event>)
    requires Tidy(s) && Fits(s, r) && Fits(s, q) && NewRow(s.zones, r) && NewRow(s.zones, q)
    requires forall k :: 0 <= k < |writes| ==> writes[k].Next?
    requires Overlap(BothRows(s, r, q, add, otherAdd), writes).pending == [[], []]
    ensures Tidy(Overlap(BothRows(s, r, q, add, otherAdd), writes).store) <==>
            (r.zoneId == q.zoneId && r.id != q.id ==> Compatible(r, q))
  {
    var o := BothRows(s, r, q, add, otherAdd);
    AtWorkAtFirst(s, r, q, add, otherAdd);
    AnyOrder(s, o, r, q, add, otherAdd, 0, 0, writes);
    BothThere(s, Overlap(o, writes).store, r, q);
  }

  /** Two creates that are both accepted before either writes, whatever the order of their writes, keep the
      zone rules exactly when they are for different zones, or the same letter for letter, or may stand side
      by side. */
  lemma TwoCreatesExactly(s: Store, body: Record, other: Record, reply: AgentReply, otherReply: AgentReply, writes: seq<Event>)
    requires Tidy(s) && CreateReady(s, body, true) && CreateReady(s, other, true) && reply.Done? && otherReply.Done?
    requires WritesOut(s, Create(body, true, reply), Create(other, true, otherReply), writes)
    ensures Tidy(Overlap(Progress(s, []), BothChecked(Create(body, true, reply), Create(other, true, otherReply), writes)).store) <==>
            (body.zoneId != other.zoneId || Alike(body, other) || Compatible(body, other))
  {
    var q, p := Create(body, true, reply), Create(other, true, otherReply);
    CreateWritesRow(s, body, reply);
    CreateWritesRow(s, other, otherReply);
    TwoChecks(s, q, p, CreateStatements(s, body, true, reply), writes);
    TwoRowsInAnyOrder(s, RowOf(s.zones, body), RowOf(s.zones, other), AddsPtr(s, body, s.zones[body.zoneId].serverId, reply),
                      AddsPtr(s, other, s.zones[other.zoneId].serverId, otherReply), writes);
    RowsAsBodies(s.zones, body, other);
  }

  // ----- an A and a CNAME row for one name

  function OneZone(): Store {
    Store(map[DNSZoneID("s", "z") := Zone("s", "z", false)], map[])
  }

  function ForName(typ: GoString, value: GoString): Record {
    Record("", DNSZoneID("s", "z"), "w", typ, value, 300, false)
  }

  lemma OneZoneIsTidy()
    ensures Tidy(OneZone())
  {
    ZoneOfExample();
  }

  lemma OneZoneId()
    ensures var id := DNSZoneID("s", "z"); TrimSpace(id) != "" && DecodeParts(id, 2).Decoded?
  {
    ZoneIdIsNotBlank("s", "z");
    PartsRoundTrip(["s", "z"], 2);
  }

  lemma EmptyZoneAllows(s: Store, body: Record)
    requires s.records == map[] && body.zoneId in s.zones && !s.zones[body.zoneId].reverse && ValidValue(body.typ, body.value)
    ensures CreateAllowed(s, body)
  {
  }

  lemma NameOfExample()
    ensures TrimSpace("w") == "w"
  {
    assert Trimmed("w", IsSpace);
  }

  lemma ForNameIsReady(typ: GoString, value: GoString)
    requires TrimSpace(typ) == typ != "" && TrimSpace(value) == value != "" && ValidValue(typ, value)
    ensures CreateReady(OneZone(), ForName(typ, value), true)
  {
    OneZoneId();
    NameOfExample();
    EmptyZoneAllows(OneZone(), ForName(typ, value));
  }

  lemma ExampleAddress(ip: Ip)
    ensures TrimSpace("A") == "A" && TrimSpace(Format(ip)) == Format(ip) != "" && ValidValue("A", Format(ip))
  {
    AIsKindA("A");
    assert Trimmed("A", IsSpace);
    AddressTrimmed(ip);
    AddressEnds(ip);
    DottedQuadIsCanonical(Format(ip), ip);
  }

  lemma ExampleTarget()
    ensures TrimSpace("CNAME") == "CNAME" && TrimSpace("x.") == "x." && ValidValue("CNAME", "x.")
  {
    CaseOfExample();
    assert Trimmed("CNAME", IsSpace);
    ExampleHost();
  }

  lemma ExampleHost()
    ensures ValidHostName("x.")
  {
    var labels := ["x"];
    assert ValidLabels(labels) && Absolute(labels) == "x.";
  }

  /** One order of two requests' writes: all of the first, then all of the second. */
  ghost function InTurn(s: Store, q: Request, p: Request): seq<Event> {
    Nexts(0, |Statements(s, q)|) + Nexts(1, |Statements(s, p)|)
  }

  lemma {:induction false} OnlyNexts(k: nat, n: nat)
    ensures forall i :: 0 <= i < |Nexts(k, n)| ==> Nexts(k, n)[i].Next?
  {
    if n > 0 {
      OnlyNexts(k, n - 1);
    }
  }

  lemma TurnsWriteOut(s: Store, ws: seq<Statement>, vs: seq<Statement>)
    ensures Overlap(Progress(s, [ws, vs]), Nexts(0, |ws|) + Nexts(1, |vs|)).pending == [[], []]
  {
    var o, p := Progress(s, [ws, vs]), Progress(WriteAll(s, ws), [[], vs]);
    WriteOut(o, 0);
    assert o.pending[0 := []] == p.pending;
    WriteOut(p, 1);
    OverlapConcat(o, Nexts(0, |ws|), Nexts(1, |vs|));
    assert p.pending[1 := []] == [[], []];
  }

  lemma InTurnWritesOut(s: Store, q: Request, p: Request)
    ensures WritesOut(s, q, p, InTurn(s, q, p))
  {
    var ws, vs := Statements(s, q), Statements(s, p);
    OnlyNexts(0, |ws|);
    OnlyNexts(1, |vs|);
    TwoChecks(s, q, p, ws, InTurn(s, q, p));
    TurnsWriteOut(s, ws, vs);
  }

  /** Both are accepted, and then, in whatever order they write, the name has a CNAME row and another. */
  lemma OverlapExample(ip: Ip, writes: seq<Event>)
    ensures var s, a, c := OneZone(), ForName("A", Format(ip)), ForName("CNAME", "x.");
            var q, p := Create(a, true, Done(false)), Create(c, true, Done(false));
            && Tidy(s) && CreateReady(s, a, true) && CreateReady(s, c, true) && WritesOut(s, q, p, InTurn(s, q, p))
            && (WritesOut(s, q, p, writes) ==> !Tidy(Overlap(Progress(s, []), BothChecked(q, p, writes)).store))
  {
    var s, a, c := OneZone(), ForName("A", Format(ip)), ForName("CNAME", "x.");
    var q, p := Create(a, true, Done(false)), Create(c, true, Done(false));
    OneZoneIsTidy();
    ExampleAddress(ip);
    ExampleTarget();
    CaseOfExample();
    ForNameIsReady("A", Format(ip));
    ForNameIsReady("CNAME", "x.");
    InTurnWritesOut(s, q, p);
    if WritesOut(s, q, p, writes) {
      TwoCreatesExactly(s, a, c, Done(false), Done(false), writes);
      assert !Compatible(a, c);
    }
  }
}
