/** A and PTR rows. Over runs in plain, unnested forward zones no PTR row is without an A row that asks
    for it; and when no step warns, the PTR rows are exactly the images of those A rows. */
module DnsPairing {
  import opened Options
  import opened Text
  import opened Ipv4
  import opened PtrNames
  import opened ResourceIds
  import opened DnsRecords
  import opened DnsZoneRules
  import opened DnsPtrNames

  ghost predicate PlainForward(zones: map<GoString, Zone>) {
    forall id | id in zones && !zones[id].reverse :: PlainZone(zones[id].name)
  }

  /** A zone on the server is the reverse zone of some address. */
  ghost predicate HasReverse(zones: map<GoString, Zone>, serverId: GoString) {
    exists ip: Ip :: DNSZoneID(serverId, ReverseZone(ip)) in zones
  }

  /** Two forward zones of one server, one in the other, where PTR rows can be stored. */
  ghost predicate Nested(zones: map<GoString, Zone>, i: GoString, j: GoString) {
    && i in zones && j in zones && i != j && zones[i].serverId == zones[j].serverId
    && !zones[i].reverse && !zones[j].reverse
    && Within(zones[i].name, zones[j].name) && HasReverse(zones, zones[i].serverId)
  }

  /** Forward zones are plainly named and none lies in another. */
  ghost predicate ZonesPlain(zones: map<GoString, Zone>) {
    PlainForward(zones) && forall i, j :: !Nested(zones, i, j)
  }

  ghost predicate RowsPlain(s: Store) {
    forall id | Forward(s, id) && IsA(s.records[id].typ) :: PlainName(s.records[id].name)
  }

  ghost predicate Base(s: Store) {
    Tidy(s) && ZonesPlain(s.zones) && RowsPlain(s)
  }

  /** An A row that asks for a PTR row. */
  ghost predicate Flagged(s: Store, id: GoString) {
    Forward(s, id) && IsA(s.records[id].typ) && s.records[id].createPtr
  }

  ghost predicate PtrRow(s: Store, id: GoString) {
    && id in s.records && s.records[id].zoneId in s.zones && s.zones[s.records[id].zoneId].reverse
    && EqualFold(TrimSpace(s.records[id].typ), "PTR")
  }

  /** The PTR row of a row. */
  ghost function PtrOf(s: Store, id: GoString): Parsed<Record>
    requires id in s.records && s.records[id].zoneId in s.zones
  {
    var z := s.zones[s.records[id].zoneId];
    PtrRecordForARecord(z.serverId, z.name, s.records[id])
  }

  ghost predicate IsSource(s: Store, id: GoString, ptr: Record) {
    Flagged(s, id) && PtrOf(s, id) == Parsed(ptr)
  }

  /** Every PTR row is the image of an A row that asks for it, other than `except`. */
  ghost predicate Sourced(s: Store, except: Option<GoString>) {
    forall p | PtrRow(s, p) :: exists a :: Some(a) != except && IsSource(s, a, s.records[p])
  }

  ghost predicate HasItsPtr(s: Store, id: GoString)
    requires id in s.records && s.records[id].zoneId in s.zones
  {
    var ptr := PtrOf(s, id);
    ptr.Parsed? && ptr.value.zoneId in s.zones ==> ptr.value.id in s.records && s.records[ptr.value.id] == ptr.value
  }

  /** Every A row that asks for a PTR row and whose reverse zone is stored has it, other than `except`. */
  ghost predicate Paired(s: Store, except: Option<GoString>) {
    forall a | Flagged(s, a) && Some(a) != except :: HasItsPtr(s, a)
  }

  /** No orphans; and `complete` adds that no PTR row is missing. */
  ghost predicate Linked(s: Store, except: Option<GoString>, complete: bool) {
    Base(s) && Sourced(s, except) && (complete ==> Paired(s, except))
  }

  /** With no exception: the PTR rows are exactly the images. */
  lemma LinkedMeansImage(s: Store, ptr: Record)
    requires ZonesOk(s.zones) && Sourced(s, None) && Paired(s, None) && ptr.zoneId in s.zones
    ensures (PtrRow(s, ptr.id) && s.records[ptr.id] == ptr) <==> exists a :: IsSource(s, a, ptr)
  {
    if a :| IsSource(s, a, ptr) {
      assert HasItsPtr(s, a);
      PtrIsReverse(s, a, ptr);
    }
  }

  lemma PtrIsReverse(s: Store, a: GoString, ptr: Record)
    requires ZonesOk(s.zones) && IsSource(s, a, ptr) && ptr.zoneId in s.zones
    ensures s.zones[ptr.zoneId].reverse && EqualFold(TrimSpace(ptr.typ), "PTR")
  {
    var z := s.zones[s.records[a].zoneId];
    PtrIsDescribed(s.zones, z.serverId, z.name, s.records[a], ptr);
    PtrTypeIsPtr();
  }

  lemma PtrTypeIsPtr()
    ensures EqualFold(TrimSpace("PTR"), "PTR")
  {
    assert Trimmed("PTR", IsSpace);
  }

  /** Names and values identify the A row of a PTR row. */
  lemma PtrIdentifies(s: Store, i: GoString, j: GoString, p: Record, q: Record)
    requires Base(s) && Forward(s, i) && Forward(s, j) && IsA(s.records[i].typ) && IsA(s.records[j].typ)
    requires PtrOf(s, i) == Parsed(p) && PtrOf(s, j) == Parsed(q)
    requires p.zoneId == q.zoneId && p.zoneId in s.zones && SameText(p.name, q.name) && SameText(p.value, q.value)
    ensures i == j
  {
    var a, b := s.records[i], s.records[j];
    var y, z := s.zones[a.zoneId], s.zones[b.zoneId];
    SameServer(y, z, a, b, p, q);
    assert HasReverse(s.zones, y.serverId) by {
      assert p.zoneId == DNSZoneID(y.serverId, ReverseZone(ParseIPv4(TrimSpace(a.value)).value));
    }
    assert !Nested(s.zones, a.zoneId, b.zoneId) && !Nested(s.zones, b.zoneId, a.zoneId);
    SamePtrName(a.value, b.value);
    SamePtrValue(y.name, a.name, z.name, b.name);
    assert a.zoneId == b.zoneId;
    AIsKindA(a.typ);
    AIsKindA(b.typ);
    assert !Compatible(a, b);
  }

  lemma SameServer(y: Zone, z: Zone, a: Record, b: Record, p: Record, q: Record)
    requires PtrRecordForARecord(y.serverId, y.name, a) == Parsed(p) && PtrRecordForARecord(z.serverId, z.name, b) == Parsed(q)
    requires p.zoneId == q.zoneId
    ensures y.serverId == z.serverId
  {
    var u, v := [y.serverId, IPv4ReverseZone(a.value).value], [z.serverId, IPv4ReverseZone(b.value).value];
    ResourceIdIsInjective(u, v);
    assert u[0] == v[0];
  }

  /** Rows with one PTR row are one row. */
  lemma OneSource(s: Store, i: GoString, j: GoString, p: Record, q: Record)
    requires Base(s) && IsSource(s, i, p) && IsSource(s, j, q) && p.id == q.id && p.zoneId in s.zones
    ensures i == j
  {
    var a, b := s.records[i], s.records[j];
    var y, z := s.zones[a.zoneId], s.zones[b.zoneId];
    var u, v := Zone(y.serverId, IPv4ReverseZone(a.value).value, true), Zone(z.serverId, IPv4ReverseZone(b.value).value, true);
    RecordIdIsInjective(u, p, v, q);
    PtrIdentifies(s, i, j, p, q);
  }

  // ----- the primitive changes

  /** Sources stay, and PTR rows do not appear. */
  lemma KeepSourced(s: Store, t: Store, except: Option<GoString>)
    requires t.zones == s.zones && Sourced(s, except)
    requires forall p :: PtrRow(t, p) ==> p in s.records && s.records[p] == t.records[p]
    requires forall a :: Flagged(s, a) && Some(a) != except ==> a in t.records && t.records[a] == s.records[a]
    ensures Sourced(t, except)
  {
    forall p | PtrRow(t, p) ensures exists a :: Some(a) != except && IsSource(t, a, t.records[p]) {
      assert PtrRow(s, p);
      var a :| Some(a) != except && IsSource(s, a, s.records[p]);
      assert IsSource(t, a, t.records[p]);
    }
  }

  /** No row begins to ask, and the PTR rows of those that do stay. */
  lemma KeepPaired(s: Store, t: Store, except: Option<GoString>)
    requires t.zones == s.zones && Paired(s, except)
    requires forall a :: Flagged(t, a) && Some(a) != except ==> a in s.records && t.records[a] == s.records[a]
    requires forall a :: Flagged(s, a) && Flagged(t, a) && Some(a) != except && PtrOf(s, a).Parsed? && PtrOf(s, a).value.zoneId in s.zones ==>
               PtrOf(s, a).value.id in s.records ==>
                 PtrOf(s, a).value.id in t.records && t.records[PtrOf(s, a).value.id] == s.records[PtrOf(s, a).value.id]
    ensures Paired(t, except)
  {
    forall a | Flagged(t, a) && Some(a) != except ensures HasItsPtr(t, a) {
      assert Flagged(s, a) && HasItsPtr(s, a);
    }
  }

  lemma RemoveKeepsBase(s: Store, id: GoString)
    requires Base(s)
    ensures Base(Remove(s, id))
  {
    RemoveKeepsTidy(s, id);
    assert forall i :: Forward(Remove(s, id), i) ==> Forward(s, i) && Remove(s, id).records[i] == s.records[i];
  }

  /** An exception that is not needed. */
  lemma NoException(s: Store, x: GoString)
    ensures Sourced(s, Some(x)) ==> Sourced(s, None)
    ensures Paired(s, Some(x)) && (Flagged(s, x) ==> HasItsPtr(s, x)) ==> Paired(s, None)
  {
    if Sourced(s, Some(x)) {
      forall p | PtrRow(s, p) ensures exists a :: Some(a) != None && IsSource(s, a, s.records[p]) {
        var a :| Some(a) != Some(x) && IsSource(s, a, s.records[p]);
        assert Some(a) != None;
      }
    }
  }

  lemma NoSource(s: Store, x: GoString)
    requires Sourced(s, None)
    requires forall p :: PtrRow(s, p) ==> !IsSource(s, x, s.records[p])
    ensures Sourced(s, Some(x))
  {
    forall p | PtrRow(s, p) ensures exists a :: Some(a) != Some(x) && IsSource(s, a, s.records[p]) {
      var a :| Some(a) != None && IsSource(s, a, s.records[p]);
      assert Some(a) != Some(x);
    }
  }

  /** Rows of forward zones are not PTR rows. */
  lemma PtrIdIsNotForward(s: Store, a: GoString, x: GoString)
    requires Tidy(s) && Forward(s, a) && Forward(s, x)
    ensures PtrOf(s, a).Parsed? ==> PtrOf(s, a).value.id != x
  {
    var z := s.zones[s.records[a].zoneId];
    PtrIsElsewhere(s, x, z.serverId, z.name, s.records[a]);
  }

  ghost predicate NoPtrAt(s: Store, x: GoString) {
    x in s.records ==> forall a | Flagged(s, a) && PtrOf(s, a).Parsed? :: PtrOf(s, a).value.id != x
  }

  lemma NoPtrAtForward(s: Store, x: GoString)
    requires Tidy(s) && (x in s.records ==> Forward(s, x))
    ensures NoPtrAt(s, x)
  {
    if x in s.records {
      forall a | Flagged(s, a) && PtrOf(s, a).Parsed? ensures PtrOf(s, a).value.id != x {
        PtrIdIsNotForward(s, a, x);
      }
    }
  }

  /** Changing only the row `x` of a forward zone, which is no source. */
  lemma ChangeForward(s: Store, t: Store, x: GoString, complete: bool)
    requires Sourced(s, Some(x)) && (complete ==> Paired(s, Some(x))) && NoPtrAt(s, x) && t.zones == s.zones
    requires x in s.records ==> Forward(s, x)
    requires x in t.records ==> Forward(t, x)
    requires forall i :: i != x ==> (i in t.records <==> i in s.records)
    requires forall i :: i != x && i in s.records ==> t.records[i] == s.records[i]
    ensures Sourced(t, Some(x)) && (complete ==> Paired(t, Some(x)))
  {
    KeepSourced(s, t, Some(x));
    if complete {
      KeepPaired(s, t, Some(x));
    }
  }

  /** A row that is no source may go. */
  lemma RemoveForward(s: Store, x: GoString, complete: bool)
    requires Linked(s, Some(x), complete) && Forward(s, x)
    ensures Linked(Remove(s, x), None, complete)
  {
    RemoveKeepsBase(s, x);
    NoPtrAtForward(s, x);
    ChangeForward(s, Remove(s, x), x, complete);
    NoException(Remove(s, x), x);
  }

  /** Writing a row of a forward zone, at a place that is no source. */
  lemma PutForward(s: Store, r: Record, complete: bool)
    requires Linked(s, Some(r.id), complete) && r.zoneId in s.zones && !s.zones[r.zoneId].reverse
    requires r.id == RecordId(s.zones[r.zoneId], r) && Fits(s, r) && (IsA(r.typ) ==> PlainName(r.name))
    requires r.id in s.records ==> Forward(s, r.id)
    ensures Linked(Upsert(s, r), Some(r.id), complete)
  {
    PutKeepsBase(s, r);
    NoPtrAtForward(s, r.id);
    PutKeepsLinks(s, r, complete);
  }

  lemma PutKeepsBase(s: Store, r: Record)
    requires Base(s) && r.zoneId in s.zones && r.id == RecordId(s.zones[r.zoneId], r) && Fits(s, r) && (IsA(r.typ) ==> PlainName(r.name))
    ensures Base(Upsert(s, r))
  {
    UpsertKeepsTidy(s, r);
    RowsStayPlain(s, r);
  }

  lemma PutKeepsLinks(s: Store, r: Record, complete: bool)
    requires Sourced(s, Some(r.id)) && (complete ==> Paired(s, Some(r.id))) && NoPtrAt(s, r.id)
    requires r.zoneId in s.zones && !s.zones[r.zoneId].reverse && (r.id in s.records ==> Forward(s, r.id))
    ensures Sourced(Upsert(s, r), Some(r.id)) && (complete ==> Paired(Upsert(s, r), Some(r.id)))
  {
    ChangeForward(s, Upsert(s, r), r.id, complete);
  }

  lemma RowsStayPlain(s: Store, r: Record)
    requires RowsPlain(s) && (IsA(r.typ) ==> PlainName(r.name))
    ensures RowsPlain(Upsert(s, r))
  {
    var t := Upsert(s, r);
    forall i | Forward(t, i) && IsA(t.records[i].typ) ensures PlainName(t.records[i].name) {
      assert i != r.id ==> Forward(s, i);
    }
  }

  /** No other row has this PTR row, if it can be stored. */
  ghost predicate OnlySource(s: Store, x: GoString, ptr: Record) {
    forall a | Flagged(s, a) && a != x && PtrOf(s, a).Parsed? && PtrOf(s, a).value.zoneId in s.zones ::
      PtrOf(s, a).value.id != ptr.id
  }

  /** The rows of forward zones are the same. */
  ghost predicate SameForward(s: Store, t: Store) {
    t.zones == s.zones && forall i :: (Forward(s, i) <==> Forward(t, i)) && (Forward(s, i) ==> t.records[i] == s.records[i])
  }

  lemma SourceIsOnly(s: Store, x: GoString, ptr: Record)
    requires Base(s) && IsSource(s, x, ptr)
    ensures OnlySource(s, x, ptr)
  {
    forall a | Flagged(s, a) && a != x && PtrOf(s, a).Parsed? && PtrOf(s, a).value.zoneId in s.zones
      ensures PtrOf(s, a).value.id != ptr.id
    {
      if PtrOf(s, a).value.id == ptr.id {
        OneSource(s, a, x, PtrOf(s, a).value, ptr);
      }
    }
  }

  lemma PtrIsNotForward(s: Store, x: GoString, ptr: Record)
    requires Tidy(s) && IsSource(s, x, ptr)
    ensures SameForward(s, Remove(s, ptr.id)) && SameForward(s, Upsert(s, ptr)) && ptr.ttl > 0
    ensures ptr.zoneId in s.zones ==> s.zones[ptr.zoneId].reverse
  {
    var z := s.zones[s.records[x].zoneId];
    PtrIsDescribed(s.zones, z.serverId, z.name, s.records[x], ptr);
    if Forward(s, ptr.id) {
      PtrIdIsNotForward(s, x, ptr.id);
    }
    OutsideForward(s, ptr);
  }

  lemma OutsideForward(s: Store, ptr: Record)
    requires !Forward(s, ptr.id) && (ptr.zoneId in s.zones ==> s.zones[ptr.zoneId].reverse)
    ensures SameForward(s, Remove(s, ptr.id)) && SameForward(s, Upsert(s, ptr))
  {
  }

  lemma DropSourced(s: Store, x: GoString, ptr: Record)
    requires Sourced(s, None) && IsSource(s, x, ptr) && SameForward(s, Remove(s, ptr.id))
    requires forall p :: PtrRow(s, p) ==> s.records[p].id == p
    ensures Sourced(Remove(s, ptr.id), Some(x))
  {
    var t := Remove(s, ptr.id);
    KeepSourced(s, t, None);
    forall p | PtrRow(t, p) ensures !IsSource(t, x, t.records[p]) {
      assert PtrRow(s, p) && t.records[p].id == p != ptr.id;
      assert PtrOf(t, x) == PtrOf(s, x);
    }
    NoSource(t, x);
  }

  lemma DropPaired(s: Store, x: GoString, ptr: Record)
    requires Paired(s, None) && OnlySource(s, x, ptr) && SameForward(s, Remove(s, ptr.id))
    ensures Paired(Remove(s, ptr.id), Some(x))
  {
    KeepPaired(s, Remove(s, ptr.id), Some(x));
  }

  /** Without its PTR row, a row is no source. */
  lemma DropPtr(s: Store, x: GoString, ptr: Record, complete: bool)
    requires Linked(s, None, complete) && IsSource(s, x, ptr)
    ensures Linked(Remove(s, ptr.id), Some(x), complete)
  {
    RemoveKeepsBase(s, ptr.id);
    PtrIsNotForward(s, x, ptr);
    DropSourced(s, x, ptr);
    if complete {
      SourceIsOnly(s, x, ptr);
      DropPaired(s, x, ptr);
    }
  }

  lemma AddSourced(s: Store, x: GoString, ptr: Record)
    requires Sourced(s, None) && IsSource(s, x, ptr) && SameForward(s, Upsert(s, ptr)) && ptr.ttl > 0
    ensures Sourced(Upsert(s, ptr), None)
  {
    var t := Upsert(s, ptr);
    forall p | PtrRow(t, p) ensures exists a :: Some(a) != None && IsSource(t, a, t.records[p]) {
      if p in s.records && t.records[p] == s.records[p] {
        assert PtrRow(s, p);
        var a :| Some(a) != None && IsSource(s, a, s.records[p]);
        assert IsSource(t, a, t.records[p]);
      } else {
        assert t.records[p] == ptr;
        assert Some(x) != None && IsSource(t, x, t.records[p]);
      }
    }
  }

  lemma AddPaired(s: Store, x: GoString, ptr: Record)
    requires Paired(s, Some(x)) && OnlySource(s, x, ptr) && SameForward(s, Upsert(s, ptr)) && ptr.ttl > 0
    requires IsSource(s, x, ptr)
    ensures Paired(Upsert(s, ptr), None)
  {
    var t := Upsert(s, ptr);
    KeepPaired(s, t, Some(x));
    assert PtrOf(t, x) == Parsed(ptr);
    NoException(t, x);
  }

  /** Adding the PTR row of a row that asks for it. */
  lemma AddPtr(s: Store, x: GoString, ptr: Record, complete: bool)
    requires Base(s) && Sourced(s, None) && (complete ==> Paired(s, Some(x))) && IsSource(s, x, ptr)
    ensures Linked(Upsert(s, ptr), None, complete)
  {
    AddPtrKeepsBase(s, x, ptr);
    PtrIsNotForward(s, x, ptr);
    AddSourced(s, x, ptr);
    if complete {
      SourceIsOnly(s, x, ptr);
      AddPaired(s, x, ptr);
    }
  }

  lemma AddPtrKeepsBase(s: Store, x: GoString, ptr: Record)
    requires Base(s) && IsSource(s, x, ptr)
    ensures Base(Upsert(s, ptr))
  {
    var z := s.zones[s.records[x].zoneId];
    AddPtrKeepsTidy(s, z.serverId, z.name, s.records[x], ptr);
    PtrIsNotForward(s, x, ptr);
    SameRowsPlain(s, Upsert(s, ptr));
  }

  lemma SameRowsPlain(s: Store, t: Store)
    requires RowsPlain(s) && SameForward(s, t)
    ensures RowsPlain(t)
  {
  }
}
