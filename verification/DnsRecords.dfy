/** The DNS record snapshot as the handlers change it: what each of create, update and delete does to
    the stored rows, whatever the DNS agent answers. */
module DnsRecords {
  import opened Options
  import opened Text
  import opened Ipv4
  import opened DnsNames
  import opened PtrNames
  import opened ResourceIds

  datatype Zone = Zone(serverId: GoString, name: GoString, reverse: bool)

  datatype Record = Record(id: GoString, zoneId: GoString, name: GoString, typ: GoString, value: GoString,
                           ttl: int, createPtr: bool)

  /** The tables `dns_zones` and `dns_records`, by primary key. */
  datatype Store = Store(zones: map<GoString, Zone>, records: map<GoString, Record>)

  const DEFAULT_TTL := 3600

  /** An upsert whose zone does not exist violates the foreign key; the handlers ignore that error. */
  function Upsert(s: Store, record: Record): Store {
    if record.zoneId in s.zones then s.(records := s.records[record.id := Normalized(record)]) else s
  }

  function Normalized(record: Record): Record {
    if record.ttl <= 0 then record.(ttl := DEFAULT_TTL) else record
  }

  function Remove(s: Store, id: GoString): Store {
    s.(records := s.records - {id})
  }

  ghost predicate InZone(s: Store, id: GoString, zoneId: GoString) {
    id in s.records && s.records[id].zoneId == zoneId
  }

  ghost predicate ReverseZoneExists(s: Store, serverId: GoString, name: GoString) {
    exists id :: id in s.zones && s.zones[id].serverId == serverId && EqualFold(s.zones[id].name, name) && s.zones[id].reverse
  }

  // ----- texts

  /** The type as the validators compare it. */
  function Kind(typ: GoString): GoString {
    ToUpper(TrimSpace(typ))
  }

  predicate SameText(a: GoString, b: GoString) {
    EqualFold(TrimSpace(a), TrimSpace(b))
  }

  predicate SameRecord(a: Record, b: Record) {
    SameText(a.name, b.name) && Kind(a.typ) == Kind(b.typ) && SameText(a.value, b.value)
  }

  function RecordId(z: Zone, r: Record): GoString {
    DNSRecordID(z.serverId, z.name, r.typ, r.name, r.value)
  }

  predicate ReverseNamed(zoneName: GoString) {
    HasSuffix(ToLower(TrimDots(TrimSpace(zoneName))), SUFFIX)
  }

  predicate Manageable(zoneName: GoString, typ: GoString) {
    if ReverseNamed(zoneName) then Kind(typ) == "PTR" else Kind(typ) == "A" || Kind(typ) == "CNAME"
  }

  predicate IsA(typ: GoString) {
    EqualFold(typ, "A")
  }

  // ----- validation

  predicate CreateClash(existing: Record, body: Record) {
    && SameText(existing.name, body.name)
    && ((Kind(existing.typ) == Kind(body.typ) && SameText(existing.value, body.value))
        || Kind(existing.typ) == "CNAME" || Kind(body.typ) == "CNAME")
  }

  ghost predicate ValidValue(typ: GoString, value: GoString) {
    && (Kind(typ) == "CNAME" ==> ValidHostName(TrimSpace(value)))
    && (Kind(typ) == "A" ==> ParseIPv4(TrimSpace(value)).Parsed?)
  }

  ghost predicate CreateAllowed(s: Store, body: Record) {
    && body.zoneId in s.zones && !s.zones[body.zoneId].reverse
    && (forall id | InZone(s, id, body.zoneId) :: !CreateClash(s.records[id], body))
    && ValidValue(body.typ, body.value)
  }

  predicate UpdateClash(existing: Record, before: Record, value: GoString) {
    && SameText(existing.name, before.name)
    && ((Kind(existing.typ) == Kind(before.typ) && SameText(existing.value, value))
        || (Kind(before.typ) == "CNAME" && Kind(existing.typ) != "CNAME")
        || (Kind(before.typ) != "CNAME" && Kind(existing.typ) == "CNAME"))
  }

  /** The early return: a value that differs at most in case and outer white space is not checked. */
  ghost predicate UpdateAllowed(s: Store, before: Record, after: Record) {
    || (SameText(before.value, after.value) && before.createPtr == after.createPtr)
    || (&& ValidValue(before.typ, after.value)
        && (Kind(before.typ) == "PTR" ==> ValidHostName(TrimSpace(after.value)))
        && (forall id | InZone(s, id, before.zoneId) && s.records[id].id != before.id ::
              !UpdateClash(s.records[id], before, after.value)))
  }

  /** Whether `dnsRecordCreateWarnings` warns: no PTR can be made for a record that asks for one. */
  ghost predicate WarnsBefore(s: Store, record: Record, serverId: GoString) {
    && EqualFold(TrimSpace(record.typ), "A") && record.createPtr
    && (IPv4ReverseZone(record.value).Malformed? || !ReverseZoneExists(s, serverId, IPv4ReverseZone(record.value).value))
  }

  /** The backend's `ptrRecordForARecord`. */
  function PtrRecordForARecord(serverId: GoString, zoneName: GoString, record: Record): Parsed<Record> {
    var reverseZone := IPv4ReverseZone(record.value);
    if reverseZone.Malformed? then Malformed else
    var name, value := TrimSpace(record.value) + ".", PtrRecordFQDN(zoneName, record.name);
    Parsed(Normalized(Record(DNSRecordID(serverId, reverseZone.value, "PTR", name, value),
                             DNSZoneID(serverId, reverseZone.value), name, "PTR", value, record.ttl, false)))
  }

  /** A row `relatedPTRRecordForDNSRecord` may return. */
  predicate MatchesPtr(row: Record, expected: Record) {
    && row.zoneId == expected.zoneId && EqualFold(TrimSpace(row.typ), "PTR")
    && SameText(row.name, expected.name) && SameText(row.value, expected.value)
  }

  /** It returns a matching row if there is one; which one is the database's choice. */
  ghost predicate Related(s: Store, serverId: GoString, zoneName: GoString, record: Record, related: Option<GoString>) {
    var expected := PtrRecordForARecord(serverId, zoneName, record);
    match related
    case Some(id) => expected.Parsed? && id in s.records && MatchesPtr(s.records[id], expected.value)
    case None => expected.Parsed? ==> forall id | id in s.records :: !MatchesPtr(s.records[id], expected.value)
  }

  // ----- the handlers

  datatype AgentReply = Failed | Done(warned: bool)

  /** A request, what the server check and the agent answer, and for a delete the related row found. */
  datatype Request =
    | Create(body: Record, ready: bool, reply: AgentReply)
    | Update(id: GoString, value: GoString, createPtr: Option<bool>, ready: bool, reply: AgentReply,
             ptrCreated: bool, ptrDeleted: bool)
    | Delete(id: GoString, ready: bool, reply: AgentReply, related: Option<GoString>)

  predicate Complete(body: Record) {
    TrimSpace(body.zoneId) != "" && TrimSpace(body.name) != "" && TrimSpace(body.typ) != "" && TrimSpace(body.value) != ""
  }

  /** The checks of `createDNSRecord` before the agent is asked. */
  ghost predicate CreateReady(s: Store, body: Record, ready: bool) {
    Complete(body) && DecodeParts(body.zoneId, 2).Decoded? && ready && CreateAllowed(s, body)
  }

  function Identified(zone: seq<GoString>, body: Record): Record
    requires |zone| == 2
  {
    Normalized(body.(id := DNSRecordID(zone[0], zone[1], body.typ, body.name, body.value)))
  }

  /** Writing a create: the record, then its PTR row if `addPtr` says so. */
  function WriteCreate(s: Store, record: Record, ptr: Parsed<Record>, addPtr: bool): (t: Store)
    ensures t.zones == s.zones
  {
    if addPtr && ptr.Parsed? then Upsert(Upsert(s, record), ptr.value) else Upsert(s, record)
  }

  ghost function CreateStep(s: Store, body: Record, ready: bool, reply: AgentReply): (t: Store)
    ensures t.zones == s.zones
  {
    if !CreateReady(s, body, ready) || reply.Failed? then s else
    var zone := DecodeParts(body.zoneId, 2).value;
    var record := Identified(zone, body);
    var ptr := PtrRecordForARecord(zone[0], zone[1], record);
    WriteCreate(s, record, ptr, !WarnsBefore(s, body, zone[0]) && !reply.warned && IsA(body.typ) && body.createPtr)
  }

  /** The row an update writes. */
  function Updated(before: Record, parts: seq<GoString>, value: GoString, createPtr: Option<bool>): Record
    requires |parts| == 5
  {
    before.(value := value,
         createPtr := if createPtr.Some? && (IsA(parts[2]) || EqualFold(parts[2], "AAAA")) then createPtr.value else before.createPtr,
         id := DNSRecordID(parts[0], parts[1], parts[2], parts[3], value))
  }

  ghost predicate UpdateReady(s: Store, id: GoString, value: GoString, createPtr: Option<bool>, ready: bool) {
    && DecodeParts(id, 5).Decoded?
    && (var parts := DecodeParts(id, 5).value;
        && Manageable(parts[1], parts[2]) && value != "" && ready && id in s.records
        && UpdateAllowed(s, s.records[id], Updated(s.records[id], parts, value, createPtr)))
  }

  /** Writing an update: remove the old PTR row, the old row if its value changes, then add the new
      row and its PTR row. `dropPtr` and `addPtr` say which of the PTR steps apply. */
  function WriteUpdate(s: Store, before: Record, after: Record, oldPtr: Parsed<Record>, newPtr: Parsed<Record>,
                       dropPtr: bool, addPtr: bool): (t: Store)
    ensures t.zones == s.zones
  {
    var s1 := if dropPtr && oldPtr.Parsed? then Remove(s, oldPtr.value.id) else s;
    var s2 := if SameText(before.value, after.value) then s1 else Remove(s1, before.id);
    var s3 := Upsert(s2, after);
    if addPtr && newPtr.Parsed? then Upsert(s3, newPtr.value) else s3
  }

  datatype Decision =
    | Stop
    | Rewrite(before: Record, after: Record, oldPtr: Parsed<Record>, newPtr: Parsed<Record>, dropPtr: bool, addPtr: bool)

  /** What an update comes to write, once it is checked and the agent has answered. */
  ghost function UpdateDecision(s: Store, id: GoString, text: GoString, createPtr: Option<bool>, ready: bool,
                                reply: AgentReply, ptrCreated: bool, ptrDeleted: bool): Decision
  {
    var value := TrimSpace(text);
    if !UpdateReady(s, id, value, createPtr, ready) then Stop else
    var parts, before := DecodeParts(id, 5).value, s.records[id];
    var after := Updated(before, parts, value, createPtr);
    var oldPtr, newPtr := PtrRecordForARecord(parts[0], parts[1], before), PtrRecordForARecord(parts[0], parts[1], after);
    var valueChanged, ptrChanged := !SameText(before.value, after.value), before.createPtr != after.createPtr;
    var dropsOld := IsA(parts[2]) && before.createPtr;
    var addsNew := IsA(parts[2]) && after.createPtr && !WarnsBefore(s, after, parts[0]);
    if valueChanged && reply.Failed? then Stop else
    var warned := if valueChanged then reply.warned
                  else ptrChanged && ((addsNew && newPtr.Parsed? && !ptrCreated) || (dropsOld && oldPtr.Parsed? && !ptrDeleted));
    Rewrite(before, after, oldPtr, newPtr, dropsOld && (valueChanged || ptrChanged), addsNew && !warned)
  }

  ghost function UpdateStep(s: Store, id: GoString, text: GoString, createPtr: Option<bool>, ready: bool,
                            reply: AgentReply, ptrCreated: bool, ptrDeleted: bool): (t: Store)
    ensures t.zones == s.zones
  {
    match UpdateDecision(s, id, text, createPtr, ready, reply, ptrCreated, ptrDeleted)
    case Stop => s
    case Rewrite(before, after, oldPtr, newPtr, dropPtr, addPtr) =>
      WriteUpdate(s, before, after, oldPtr, newPtr, dropPtr, addPtr)
  }

  ghost predicate DeleteReady(s: Store, id: GoString, ready: bool) {
    && DecodeParts(id, 5).Decoded?
    && Manageable(DecodeParts(id, 5).value[1], DecodeParts(id, 5).value[2]) && ready && id in s.records
  }

  function WriteDelete(s: Store, id: GoString, related: Option<GoString>): (t: Store)
    ensures t.zones == s.zones
  {
    if related.Some? then Remove(Remove(s, id), related.value) else Remove(s, id)
  }

  ghost function DeleteStep(s: Store, id: GoString, ready: bool, reply: AgentReply, related: Option<GoString>): (t: Store)
    ensures t.zones == s.zones
  {
    if !DeleteReady(s, id, ready) || reply.Failed? then s else
    var parts := DecodeParts(id, 5).value;
    WriteDelete(s, id, if IsA(parts[2]) then related else None)
  }

  ghost function Step(s: Store, q: Request): (t: Store)
    ensures t.zones == s.zones
  {
    match q
    case Create(body, ready, reply) => CreateStep(s, body, ready, reply)
    case Update(id, text, createPtr, ready, reply, ptrCreated, ptrDeleted) =>
      UpdateStep(s, id, text, createPtr, ready, reply, ptrCreated, ptrDeleted)
    case Delete(id, ready, reply, related) => DeleteStep(s, id, ready, reply, related)
  }

  /** The related row of a delete is one the search may return. */
  ghost predicate Possible(s: Store, q: Request) {
    q.Delete? && DeleteReady(s, q.id, q.ready) ==>
      Related(s, DecodeParts(q.id, 5).value[0], DecodeParts(q.id, 5).value[1], s.records[q.id], q.related)
  }

  ghost function Run(s: Store, requests: seq<Request>): (t: Store)
    ensures t.zones == s.zones
    decreases |requests|
  {
    if requests == [] then s else Run(Step(s, requests[0]), requests[1..])
  }
}
