/** What breaks the pairing of A and PTR rows. Two A rows of one host share a PTR row, and deleting one takes
    it from the other. That happens exactly where forward zones are nested, or else with names that have a
    dot at an end. */
module DnsNesting {
  import opened Options
  import opened Text
  import opened Ipv4
  import opened DnsNames
  import opened PtrNames
  import opened ResourceIds
  import opened DnsRecords
  import opened DnsZoneRules
  import opened DnsPtrNames
  import opened DnsPairing
  import opened DnsPairingRuns

  /** A PTR row is stored exactly when an A row asks for it. */
  ghost predicate ImageAt(s: Store, ptr: Record) {
    (PtrRow(s, ptr.id) && s.records[ptr.id] == ptr) <==> exists a :: IsSource(s, a, ptr)
  }

  ghost predicate RegularRun(s: Store, requests: seq<Request>)
    decreases |requests|
  {
    requests != [] ==> Regular(s, requests[0], true) && RegularRun(Step(s, requests[0]), requests[1..])
  }

  lemma {:induction false} PlainRunIsCovered(s: Store, requests: seq<Request>)
    requires RegularRun(s, requests) && forall k :: 0 <= k < |requests| ==> NamedPlainly(requests[k])
    ensures CoveredRun(s, requests, true)
    decreases |requests|
  {
    if requests != [] {
      assert NamedPlainly(requests[0]);
      PlainRunIsCovered(Step(s, requests[0]), requests[1..]);
    }
  }

  /** After every run from these zones, without records, in which nothing warns. */
  ghost predicate AlwaysTheImage(zones: map<GoString, Zone>) {
    forall requests, ptr: Record | CoveredRun(Store(zones, map[]), requests, true) && ptr.zoneId in zones ::
      ImageAt(Run(Store(zones, map[]), requests), ptr)
  }

  // ----- texts

  /** A name that is its own trimmed text. */
  predicate NeatName(name: GoString) {
    name != "" && name != "@" && Trimmed(name, IsSpace) && Trimmed(name, IsDot)
  }

  lemma NeatNames(middle: GoString)
    requires PlainZone(middle)
    ensures NeatName("w") && NeatName("w." + middle)
  {
    var name := "w." + middle;
    assert name[0] == 'w' && name[|name| - 1] == middle[|middle| - 1];
  }

  /** The names of one host in a zone and in the one around it. */
  function OuterName(inner: GoString, outer: GoString): GoString
    requires Within(inner, outer)
  {
    if EqualFold(inner, outer) then "w" else "w." + inner[..|inner| - |outer| - 1]
  }

  lemma SamePrefix(prefix: GoString, x: GoString, y: GoString)
    requires SameLetters(x, y)
    ensures SameLetters(prefix + x, prefix + y)
  {
  }

  lemma LettersAfterDot(x: GoString, y: GoString)
    requires ToLower(x) == "." + ToLower(y)
    ensures SameLetters(x, "." + y)
  {
    ToLowerConcat(".", y);
    assert ToLower(".") == ".";
    FoldIsByLetters(x, "." + y);
  }

  lemma Regrouped(first: GoString, inner: GoString, k: nat, outer: GoString)
    requires k <= |inner|
    ensures first + "." + inner == first + "." + inner[..k] + inner[k..]
    ensures first + "." + inner[..k] + "." + outer == first + "." + inner[..k] + ("." + outer)
  {
    assert inner == inner[..k] + inner[k..];
  }

  lemma SameFullNames(inner: GoString, outer: GoString)
    requires Within(inner, outer)
    ensures NeatName("w") && NeatName(OuterName(inner, outer))
    ensures EqualFold(FullName(inner, "w"), FullName(outer, OuterName(inner, outer)))
  {
    if EqualFold(inner, outer) {
      SameInSameZone(inner, outer);
    } else {
      NeatNames(inner[..|inner| - |outer| - 1]);
      SameBelow(inner, outer, |inner| - |outer| - 1);
    }
  }

  lemma SameInSameZone(inner: GoString, outer: GoString)
    requires EqualFold(inner, outer)
    ensures NeatName("w") && EqualFold(FullName(inner, "w"), FullName(outer, "w"))
  {
    LowerFullName(inner, "w");
    LowerFullName(outer, "w");
  }

  lemma SameBelow(inner: GoString, outer: GoString, k: nat)
    requires k <= |inner| && ToLower(inner[k..]) == "." + ToLower(outer)
    ensures EqualFold(FullName(inner, "w"), FullName(outer, "w." + inner[..k]))
  {
    var prefix := "w" + "." + inner[..k];
    assert prefix == "w." + inner[..k];
    LettersAfterDot(inner[k..], outer);
    SamePrefix(prefix, inner[k..], "." + outer);
    Regrouped("w", inner, k, outer);
    FoldIsByLetters(FullName(inner, "w"), FullName(outer, prefix));
  }

  lemma FoldWithDot(a: GoString, b: GoString)
    requires EqualFold(a, b)
    ensures EqualFold(b + ".", a + ".")
  {
    ToLowerConcat(a, ".");
    ToLowerConcat(b, ".");
  }

  lemma SameHost(inner: GoString, outer: GoString)
    requires PlainZone(inner) && PlainZone(outer) && Within(inner, outer)
    ensures SameText(PtrRecordFQDN(outer, OuterName(inner, outer)), PtrRecordFQDN(inner, "w"))
  {
    var name := OuterName(inner, outer);
    SameFullNames(inner, outer);
    PlainFQDN(inner, "w");
    PlainFQDN(outer, name);
    FoldWithDot(FullName(inner, "w"), FullName(outer, name));
  }

  // ----- one create

  /** The request for an A row of an address, with its PTR row. */
  function Body(zoneId: GoString, name: GoString, ip: Ip): Record {
    Record("", zoneId, name, "A", Format(ip), DEFAULT_TTL, true)
  }

  function Row(z: Zone, zoneId: GoString, name: GoString, ip: Ip): Record {
    Body(zoneId, name, ip).(id := RecordId(z, Body(zoneId, name, ip)))
  }

  function PtrFor(z: Zone, zoneId: GoString, name: GoString, ip: Ip): Record {
    var value := PtrRecordFQDN(z.name, name);
    Record(DNSRecordID(z.serverId, ReverseZone(ip), "PTR", Format(ip) + ".", value),
           DNSZoneID(z.serverId, ReverseZone(ip)), Format(ip) + ".", "PTR", value, DEFAULT_TTL, false)
  }

  lemma TextsOfA(ip: Ip)
    ensures Kind("A") == "A" && TrimSpace("A") == "A" && IsA("A")
    ensures TrimSpace(Format(ip)) == Format(ip) != "" && ParseIPv4(Format(ip)) == Parsed(ip)
  {
    AIsKindA("A");
    assert Trimmed("A", IsSpace);
    AddressTrimmed(ip);
    AddressEnds(ip);
    DottedQuadIsCanonical(Format(ip), ip);
  }

  lemma PtrOfRow(z: Zone, zoneId: GoString, name: GoString, ip: Ip)
    ensures PtrRecordForARecord(z.serverId, z.name, Row(z, zoneId, name, ip)) == Parsed(PtrFor(z, zoneId, name, ip))
  {
    TextsOfA(ip);
  }

  /** A forward zone has no row of this name, and the address's reverse zone is stored. */
  ghost predicate Room(s: Store, zoneId: GoString, name: GoString, ip: Ip) {
    && ZonesOk(s.zones) && zoneId in s.zones && !s.zones[zoneId].reverse && TrimSpace(name) != ""
    && (forall id | InZone(s, id, zoneId) :: !SameText(s.records[id].name, name))
    && DNSZoneID(s.zones[zoneId].serverId, ReverseZone(ip)) in s.zones
  }

  lemma ReverseIsStored(zones: map<GoString, Zone>, zoneId: GoString, name: GoString, ip: Ip)
    requires ZonesOk(zones) && zoneId in zones && DNSZoneID(zones[zoneId].serverId, ReverseZone(ip)) in zones
    ensures var z := zones[PtrFor(zones[zoneId], zoneId, name, ip).zoneId];
            z.reverse && z.serverId == zones[zoneId].serverId && z.name == ReverseZone(ip)
  {
    var z := zones[zoneId];
    PtrOfRow(z, zoneId, name, ip);
    TextsOfA(ip);
    PtrIsDescribed(zones, z.serverId, z.name, Row(z, zoneId, name, ip), PtrFor(z, zoneId, name, ip));
  }

  lemma BodyIsReady(s: Store, zoneId: GoString, name: GoString, ip: Ip)
    requires Room(s, zoneId, name, ip)
    ensures CreateReady(s, Body(zoneId, name, ip), true)
  {
    var z := s.zones[zoneId];
    TextsOfA(ip);
    ZoneOfId(s.zones, zoneId);
    ZoneIdIsNotBlank(z.serverId, z.name);
  }

  /** What the create writes: the row and its PTR row. */
  ghost function WithRow(s: Store, zoneId: GoString, name: GoString, ip: Ip): Store
    requires zoneId in s.zones
  {
    var z := s.zones[zoneId];
    Upsert(Upsert(s, Row(z, zoneId, name, ip)), PtrFor(z, zoneId, name, ip))
  }

  lemma CreateWritesBoth(s: Store, zoneId: GoString, name: GoString, ip: Ip)
    requires Room(s, zoneId, name, ip)
    ensures CreateStep(s, Body(zoneId, name, ip), true, Done(false)) == WithRow(s, zoneId, name, ip)
  {
    var body := Body(zoneId, name, ip);
    BodyIsReady(s, zoneId, name, ip);
    ReverseIsStored(s.zones, zoneId, name, ip);
    assert ReverseZoneExists(s, s.zones[zoneId].serverId, ReverseZone(ip));
    TextsOfA(ip);
    var record, ptr, add := CreateWrites(s, body, true, Done(false));
    PtrOfRow(s.zones[zoneId], zoneId, name, ip);
  }

  // ----- two rows of one host

  /** Two names, in one zone or two, and an address. */
  datatype Host = Host(i: GoString, name: GoString, j: GoString, other: GoString, ip: Ip)

  /** Different names that spell one full name, where the address's PTR row can be stored. */
  ghost predicate OneHost(zones: map<GoString, Zone>, h: Host) {
    && ZonesOk(zones) && h.i in zones && h.j in zones && zones[h.i].serverId == zones[h.j].serverId
    && !zones[h.i].reverse && !zones[h.j].reverse
    && DNSZoneID(zones[h.i].serverId, ReverseZone(h.ip)) in zones
    && TrimSpace(h.name) != "" && TrimSpace(h.other) != "" && (h.i == h.j ==> !SameText(h.name, h.other))
    && SameText(PtrRecordFQDN(zones[h.j].name, h.other), PtrRecordFQDN(zones[h.i].name, h.name))
  }

  ghost function FirstRow(zones: map<GoString, Zone>, h: Host): Record
    requires h.i in zones
  {
    Row(zones[h.i], h.i, h.name, h.ip)
  }

  ghost function OtherRow(zones: map<GoString, Zone>, h: Host): Record
    requires h.j in zones
  {
    Row(zones[h.j], h.j, h.other, h.ip)
  }

  ghost function OtherPtr(zones: map<GoString, Zone>, h: Host): Record
    requires h.j in zones
  {
    PtrFor(zones[h.j], h.j, h.other, h.ip)
  }

  /** The tables with both rows. */
  ghost function TwoRows(zones: map<GoString, Zone>, h: Host): Store
    requires OneHost(zones, h)
  {
    WithRow(WithRow(Store(zones, map[]), h.i, h.name, h.ip), h.j, h.other, h.ip)
  }

  /** Create both rows and delete the first, taking the other's PTR row for its own. */
  ghost function LosingRun(zones: map<GoString, Zone>, h: Host): seq<Request>
    requires OneHost(zones, h)
  {
    [Create(Body(h.i, h.name, h.ip), true, Done(false)), Create(Body(h.j, h.other, h.ip), true, Done(false)),
     Delete(FirstRow(zones, h).id, true, Done(false), Some(OtherPtr(zones, h).id))]
  }

  lemma OtherNamesOnly(s: Store, r: Record, ptr: Record, zoneId: GoString, name: GoString)
    requires s.records == map[] && ptr.zoneId != zoneId && (r.zoneId == zoneId ==> !SameText(r.name, name))
    ensures var t := Upsert(Upsert(s, r), ptr); forall id | InZone(t, id, zoneId) :: !SameText(t.records[id].name, name)
  {
  }

  lemma RoomForBoth(zones: map<GoString, Zone>, h: Host)
    requires OneHost(zones, h)
    ensures Room(Store(zones, map[]), h.i, h.name, h.ip)
    ensures Room(WithRow(Store(zones, map[]), h.i, h.name, h.ip), h.j, h.other, h.ip)
  {
    ReverseIsStored(zones, h.i, h.name, h.ip);
    OtherNamesOnly(Store(zones, map[]), FirstRow(zones, h), PtrFor(zones[h.i], h.i, h.name, h.ip), h.j, h.other);
  }

  lemma RowIsNotPtr(z: Zone, zoneId: GoString, name: GoString, y: Zone, otherId: GoString, other: GoString, ip: Ip)
    ensures Row(z, zoneId, name, ip).id != PtrFor(y, otherId, other, ip).id
  {
    RecordIdIsInjective(z, Row(z, zoneId, name, ip), Zone(y.serverId, ReverseZone(ip), true), PtrFor(y, otherId, other, ip));
  }

  lemma RowsDiffer(zones: map<GoString, Zone>, h: Host)
    requires OneHost(zones, h)
    ensures FirstRow(zones, h).id != OtherRow(zones, h).id
  {
    RecordIdIsInjective(zones[h.i], FirstRow(zones, h), zones[h.j], OtherRow(zones, h));
  }

  lemma FourWrites(s: Store, r: Record, p: Record, q: Record, ptr: Record)
    requires r.zoneId in s.zones && q.zoneId in s.zones && ptr.zoneId in s.zones
    requires r.ttl > 0 && q.ttl > 0 && ptr.ttl > 0
    requires r.id != p.id && r.id != q.id && r.id != ptr.id && q.id != ptr.id
    ensures var t := Upsert(Upsert(Upsert(Upsert(s, r), p), q), ptr);
            && r.id in t.records && t.records[r.id] == r && q.id in t.records && t.records[q.id] == q
            && ptr.id in t.records && t.records[ptr.id] == ptr
  {
  }

  lemma RowsOfTwo(zones: map<GoString, Zone>, h: Host)
    requires OneHost(zones, h)
    ensures var s, r, q, ptr := TwoRows(zones, h), FirstRow(zones, h), OtherRow(zones, h), OtherPtr(zones, h);
            && s.zones == zones && r.id != q.id && ptr.id != q.id
            && r.id in s.records && s.records[r.id] == r && q.id in s.records && s.records[q.id] == q
            && ptr.id in s.records && s.records[ptr.id] == ptr
  {
    RowsDiffer(zones, h);
    RowIsNotPtr(zones[h.i], h.i, h.name, zones[h.i], h.i, h.name, h.ip);
    RowIsNotPtr(zones[h.i], h.i, h.name, zones[h.j], h.j, h.other, h.ip);
    RowIsNotPtr(zones[h.j], h.j, h.other, zones[h.j], h.j, h.other, h.ip);
    FourWrites(Store(zones, map[]), FirstRow(zones, h), PtrFor(zones[h.i], h.i, h.name, h.ip), OtherRow(zones, h), OtherPtr(zones, h));
  }

  lemma RowIsDeletable(s: Store, id: GoString)
    requires ZonesOk(s.zones) && Forward(s, id) && Described(s.zones, id, s.records[id]) && s.records[id].typ == "A"
    ensures DeleteReady(s, id, true)
  {
    FieldsOfId(s.zones, id, s.records[id]);
    AIsKindA("A");
  }

  lemma DeleteTakes(s: Store, id: GoString, expected: Record, related: GoString)
    requires ZonesOk(s.zones) && Forward(s, id) && Described(s.zones, id, s.records[id]) && s.records[id].typ == "A"
    requires PtrOf(s, id) == Parsed(expected) && related in s.records && MatchesPtr(s.records[related], expected)
    ensures Regular(s, Delete(id, true, Done(false), Some(related)), true)
    ensures DeleteStep(s, id, true, Done(false), Some(related)) == WriteDelete(s, id, Some(related))
  {
    RowIsDeletable(s, id);
    DeleteWrites(s, id, true, Some(related), false);
  }

  lemma DeleteIsPossible(zones: map<GoString, Zone>, h: Host)
    requires OneHost(zones, h)
    ensures var s, r, ptr := TwoRows(zones, h), FirstRow(zones, h), OtherPtr(zones, h);
            && Regular(s, Delete(r.id, true, Done(false), Some(ptr.id)), true)
            && DeleteStep(s, r.id, true, Done(false), Some(ptr.id)) == WriteDelete(s, r.id, Some(ptr.id))
  {
    RowsOfTwo(zones, h);
    PtrOfRow(zones[h.i], h.i, h.name, h.ip);
    PtrTypeIsPtr();
    DeleteTakes(TwoRows(zones, h), FirstRow(zones, h).id, PtrFor(zones[h.i], h.i, h.name, h.ip), OtherPtr(zones, h).id);
  }

  lemma FirstStep(s: Store, q: Request, rest: seq<Request>)
    ensures Run(s, [q] + rest) == Run(Step(s, q), rest)
    ensures RegularRun(s, [q] + rest) <==> Regular(s, q, true) && RegularRun(Step(s, q), rest)
  {
    assert ([q] + rest)[1..] == rest;
  }

  lemma ThreeSteps(s: Store, a: Request, b: Request, c: Request)
    ensures Run(s, [a, b, c]) == Step(Step(Step(s, a), b), c)
    ensures RegularRun(s, [a, b, c]) <==>
            Regular(s, a, true) && Regular(Step(s, a), b, true) && Regular(Step(Step(s, a), b), c, true)
  {
    assert [a, b, c] == [a] + ([b] + ([c] + []));
    FirstStep(s, a, [b] + ([c] + []));
    FirstStep(Step(s, a), b, [c] + []);
    FirstStep(Step(Step(s, a), b), c, []);
  }

  lemma LosingRunRuns(zones: map<GoString, Zone>, h: Host)
    requires OneHost(zones, h)
    ensures RegularRun(Store(zones, map[]), LosingRun(zones, h))
    ensures Run(Store(zones, map[]), LosingRun(zones, h)) ==
            WriteDelete(TwoRows(zones, h), FirstRow(zones, h).id, Some(OtherPtr(zones, h).id))
  {
    var s, requests := Store(zones, map[]), LosingRun(zones, h);
    RoomForBoth(zones, h);
    CreateWritesBoth(s, h.i, h.name, h.ip);
    CreateWritesBoth(WithRow(s, h.i, h.name, h.ip), h.j, h.other, h.ip);
    DeleteIsPossible(zones, h);
    ThreeSteps(s, requests[0], requests[1], requests[2]);
  }

  lemma PtrIsGone(s: Store, i: GoString, j: GoString, ptr: Record)
    requires IsSource(s, j, ptr) && i != j && ptr.id != j
    ensures !ImageAt(WriteDelete(s, i, Some(ptr.id)), ptr)
  {
    var t := WriteDelete(s, i, Some(ptr.id));
    assert j in t.records && t.records[j] == s.records[j];
    assert PtrOf(t, j) == PtrOf(s, j);
    assert IsSource(t, j, ptr);
  }

  /** Nothing of the run warns, and its last row asks for a PTR row that is gone. */
  lemma OneHostLosesPtr(zones: map<GoString, Zone>, h: Host)
    requires OneHost(zones, h)
    ensures RegularRun(Store(zones, map[]), LosingRun(zones, h))
    ensures OtherPtr(zones, h).zoneId in zones && !ImageAt(Run(Store(zones, map[]), LosingRun(zones, h)), OtherPtr(zones, h))
  {
    LosingRunRuns(zones, h);
    RowsOfTwo(zones, h);
    AIsKindA("A");
    PtrOfRow(zones[h.j], h.j, h.other, h.ip);
    PtrIsGone(TwoRows(zones, h), FirstRow(zones, h).id, OtherRow(zones, h).id, OtherPtr(zones, h));
  }

  // ----- nested zones

  ghost function NestedHost(zones: map<GoString, Zone>, i: GoString, j: GoString, ip: Ip): Host
    requires Nested(zones, i, j)
  {
    Host(i, "w", j, OuterName(zones[i].name, zones[j].name), ip)
  }

  lemma NestedHostIsOne(zones: map<GoString, Zone>, i: GoString, j: GoString, ip: Ip)
    requires ZonesOk(zones) && PlainForward(zones) && Nested(zones, i, j)
    requires DNSZoneID(zones[i].serverId, ReverseZone(ip)) in zones
    ensures OneHost(zones, NestedHost(zones, i, j, ip))
  {
    NeatIsPlain(zones[i].name, zones[j].name);
    SameHost(zones[i].name, zones[j].name);
  }

  lemma NeatIsPlain(inner: GoString, outer: GoString)
    requires Within(inner, outer)
    ensures TrimSpace("w") == "w" && TrimSpace(OuterName(inner, outer)) == OuterName(inner, outer) != ""
    ensures PlainName("w") && PlainName(OuterName(inner, outer))
  {
    SameFullNames(inner, outer);
  }

  lemma ThreePlain(a: Request, b: Request, c: Request)
    requires NamedPlainly(a) && NamedPlainly(b) && NamedPlainly(c)
    ensures forall k :: 0 <= k < |[a, b, c]| ==> NamedPlainly([a, b, c][k])
  {
  }

  lemma PlainLosingRun(zones: map<GoString, Zone>, h: Host)
    requires OneHost(zones, h) && PlainName(h.name) && PlainName(h.other)
    ensures CoveredRun(Store(zones, map[]), LosingRun(zones, h), true)
  {
    LosingRunRuns(zones, h);
    ThreePlainAreCovered(Store(zones, map[]), Create(Body(h.i, h.name, h.ip), true, Done(false)),
                         Create(Body(h.j, h.other, h.ip), true, Done(false)),
                         Delete(FirstRow(zones, h).id, true, Done(false), Some(OtherPtr(zones, h).id)));
  }

  lemma ThreePlainAreCovered(s: Store, a: Request, b: Request, c: Request)
    requires NamedPlainly(a) && NamedPlainly(b) && NamedPlainly(c) && RegularRun(s, [a, b, c])
    ensures CoveredRun(s, [a, b, c], true)
  {
    ThreePlain(a, b, c);
    PlainRunIsCovered(s, [a, b, c]);
  }

  /** The pairing holds after every run exactly when no forward zone lies in another on a server that
      stores the reverse zone of an address. */
  lemma ImageExactlyUnnested(zones: map<GoString, Zone>)
    requires ZonesOk(zones) && PlainForward(zones)
    ensures AlwaysTheImage(zones) <==> forall i, j :: !Nested(zones, i, j)
  {
    var s := Store(zones, map[]);
    if i, j :| Nested(zones, i, j) {
      var ip: Ip :| DNSZoneID(zones[i].serverId, ReverseZone(ip)) in zones;
      NestedHostIsOne(zones, i, j, ip);
      NeatIsPlain(zones[i].name, zones[j].name);
      PlainLosingRun(zones, NestedHost(zones, i, j, ip));
      OneHostLosesPtr(zones, NestedHost(zones, i, j, ip));
    } else {
      NoRecordsAreUnpaired(zones);
      forall requests, ptr: Record | CoveredRun(s, requests, true) && ptr.zoneId in zones ensures ImageAt(Run(s, requests), ptr) {
        PtrRowsAreTheImage(s, requests, ptr);
      }
    }
  }

  // ----- names with a dot at an end

  lemma EdgeDotsAreDropped(zone: GoString)
    ensures TrimSpace("w") == "w" && TrimSpace(".w") == ".w" && !SameText("w", ".w")
    ensures PtrRecordFQDN(zone, "w") == PtrRecordFQDN(zone, ".w")
  {
    assert Trimmed("w", IsSpace) && Trimmed(".w", IsSpace) && Trimmed("w", IsDot);
    assert CutLeft("w", IsDot) == 0;
    assert ".w"[1..] == "w";
    assert CutLeft(".w", IsDot) == 1;
    assert TrimDots(".w") == "w";
  }

  /** Where PTR rows can be stored at all, the names "w" and ".w" of one zone spell one full name. */
  lemma EdgeDotsLosePtr(zones: map<GoString, Zone>, i: GoString, ip: Ip)
    requires ZonesOk(zones) && i in zones && !zones[i].reverse && DNSZoneID(zones[i].serverId, ReverseZone(ip)) in zones
    ensures var h := Host(i, "w", i, ".w", ip);
            && OneHost(zones, h) && RegularRun(Store(zones, map[]), LosingRun(zones, h))
            && OtherPtr(zones, h).zoneId in zones
            && !ImageAt(Run(Store(zones, map[]), LosingRun(zones, h)), OtherPtr(zones, h))
  {
    EdgeDotsAreDropped(zones[i].name);
    OneHostLosesPtr(zones, Host(i, "w", i, ".w", ip));
  }
}
