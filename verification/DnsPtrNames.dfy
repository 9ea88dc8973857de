/** The name a PTR row points to determines its A record, when zones are plain and not nested. */
module DnsPtrNames {
  import opened Text
  import opened Ipv4
  import opened DnsNames
  import opened PtrNames
  import opened ResourceIds
  import opened DnsRecords

  /** A name with something between its outer white space, and no dot at either end of that. */
  predicate PlainName(name: GoString) {
    TrimSpace(name) != "" && Trimmed(TrimSpace(name), IsDot)
  }

  predicate PlainZone(name: GoString) {
    name != "" && Trimmed(name, IsDot) && Trimmed(name, IsSpace)
  }

  /** `inner` is `outer`, letter case aside, or a zone below it with a plain name in between. */
  predicate Within(inner: GoString, outer: GoString) {
    var n := |inner| - |outer|;
    || EqualFold(inner, outer)
    || (n > 1 && ToLower(inner[n - 1..]) == "." + ToLower(outer) && PlainZone(inner[..n - 1]))
  }

  /** The full name without its final dot, for a plain zone and a trimmed plain name. */
  function FullName(zone: GoString, name: GoString): GoString {
    if name == "@" then zone else name + "." + zone
  }

  lemma PlainFQDN(zone: GoString, name: GoString)
    requires PlainZone(zone) && PlainName(name)
    ensures PtrRecordFQDN(zone, name) == FullName(zone, TrimSpace(name)) + "."
    ensures TrimSpace(PtrRecordFQDN(zone, name)) == PtrRecordFQDN(zone, name)
  {
    var full := FullName(zone, TrimSpace(name));
    assert full[|full| - 1] == zone[|zone| - 1];
    NoFinalDot(full);
    assert full[0] == if TrimSpace(name) == "@" then zone[0] else TrimSpace(name)[0];
    assert Trimmed(full + ".", IsSpace);
  }

  lemma NoFinalDot(s: GoString)
    requires s != "" && s[|s| - 1] != '.'
    ensures !HasSuffix(s, ".")
  {
    assert s[|s| - 1..] == [s[|s| - 1]];
  }

  lemma LowerFullName(zone: GoString, name: GoString)
    ensures ToLower(FullName(zone, name)) == FullName(ToLower(zone), ToLower(name))
  {
    assert ToLower("@") == "@";
    assert ToLower(name) == "@" ==> name == "@" by {
      if ToLower(name) == "@" {
        assert |name| == 1 && LowerByte(name[0]) == '@';
        assert name == [name[0]];
      }
    }
    if name != "@" {
      ToLowerConcat(name + ".", zone);
      ToLowerConcat(name, ".");
      assert ToLower(".") == ".";
    }
  }

  ghost predicate SameLetters(a: GoString, b: GoString) {
    |a| == |b| && forall i :: 0 <= i < |a| ==> LowerByte(a[i]) == LowerByte(b[i])
  }

  lemma FoldIsByLetters(a: GoString, b: GoString)
    ensures EqualFold(a, b) <==> SameLetters(a, b)
  {
    var x, y := ToLower(a), ToLower(b);
    assert EqualFold(a, b) ==> forall i :: 0 <= i < |a| ==> x[i] == y[i];
    if SameLetters(a, b) {
      assert forall i :: 0 <= i < |a| ==> x[i] == y[i];
    }
  }

  /** `s` ends in the zone, after the name and a dot unless it is the zone itself. */
  ghost predicate EndsInZone(s: GoString, zone: GoString, name: GoString) {
    && |s| >= |zone| && (forall i :: 0 <= i < |zone| ==> s[|s| - |zone| + i] == zone[i])
    && (|s| > |zone| ==> |s| == |name| + 1 + |zone| && s[|name|] == '.')
    && (|s| > |zone| && name != "" ==> s[|name| - 1] == name[|name| - 1])
  }

  lemma FullNameEnd(zone: GoString, name: GoString)
    ensures EndsInZone(FullName(zone, name), zone, name)
  {
  }

  lemma CaseOfDotsAndSpaces(x: Byte, y: Byte)
    requires LowerByte(x) == LowerByte(y)
    ensures (IsDot(x) <==> IsDot(y)) && (IsSpace(x) <==> IsSpace(y))
  {
  }

  /** `t` ends in the letters of the zone. */
  ghost predicate EndsLike(t: GoString, zone: GoString) {
    |t| >= |zone| && forall i :: 0 <= i < |zone| ==> LowerByte(zone[i]) == LowerByte(t[|t| - |zone| + i])
  }

  lemma LettersOfZone(zone: GoString, s: GoString, name: GoString, t: GoString)
    requires SameLetters(s, t) && EndsInZone(s, zone, name)
    ensures EndsLike(t, zone)
  {
    forall i | 0 <= i < |zone| ensures LowerByte(zone[i]) == LowerByte(t[|t| - |zone| + i]) {
      assert s[|s| - |zone| + i] == zone[i];
    }
  }

  /** Where one zone's name is the longer, the other's ends it after a dot. */
  lemma LongerZone(zone: GoString, t: GoString, otherZone: GoString, otherName: GoString)
    requires PlainZone(zone) && |zone| > |otherZone| && EndsLike(t, zone) && EndsInZone(t, otherZone, otherName)
    requires otherName != "" && Trimmed(otherName, IsDot) && Trimmed(otherName, IsSpace)
    ensures Within(zone, otherZone)
  {
    var n := |zone| - |otherZone|;
    DotInside(zone, t, otherZone, otherName);
    EndOfLonger(zone, t, n, otherZone, otherName);
    PlainInside(zone, n - 1);
    IsWithin(zone, otherZone, n);
  }

  lemma IsWithin(inner: GoString, outer: GoString, n: nat)
    requires 1 < n && n + |outer| == |inner|
    requires ToLower(inner[n - 1..]) == "." + ToLower(outer) && PlainZone(inner[..n - 1])
    ensures Within(inner, outer)
  {
  }

  lemma DotInside(zone: GoString, t: GoString, otherZone: GoString, otherName: GoString)
    requires PlainZone(zone) && |zone| > |otherZone| && EndsLike(t, zone) && EndsInZone(t, otherZone, otherName)
    requires otherName != "" && Trimmed(otherName, IsDot) && Trimmed(otherName, IsSpace)
    ensures var n := |zone| - |otherZone|; n > 1 && zone[n - 1] == '.' && !IsDot(zone[n - 2]) && !IsSpace(zone[n - 2])
  {
    var n, k := |zone| - |otherZone|, |t| - |zone|;
    assert k + (n - 1) == |otherName|;
    CaseOfDotsAndSpaces(zone[n - 1], t[k + (n - 1)]);
    assert n > 1;
    CaseOfDotsAndSpaces(zone[n - 2], t[k + (n - 2)]);
  }

  lemma PlainInside(zone: GoString, k: nat)
    requires PlainZone(zone) && 1 <= k <= |zone| && !IsDot(zone[k - 1]) && !IsSpace(zone[k - 1])
    ensures PlainZone(zone[..k])
  {
    assert zone[..k][0] == zone[0] && zone[..k][k - 1] == zone[k - 1];
  }

  lemma EndOfLonger(zone: GoString, t: GoString, n: nat, otherZone: GoString, otherName: GoString)
    requires 1 <= n && n + |otherZone| == |zone| && zone[n - 1] == '.'
    requires EndsLike(t, zone) && EndsInZone(t, otherZone, otherName)
    ensures ToLower(zone[n - 1..]) == "." + ToLower(otherZone)
  {
    var x, y := zone[n - 1..], "." + otherZone;
    forall i | 0 <= i < |x| ensures LowerByte(x[i]) == LowerByte(y[i]) {
      if i > 0 {
        EndAt(zone, t, n, otherZone, otherName, i);
      }
    }
    LowerDot(x, otherZone);
  }

  lemma EndAt(zone: GoString, t: GoString, n: nat, otherZone: GoString, otherName: GoString, i: nat)
    requires 1 <= n && n + |otherZone| == |zone| && 0 < i <= |otherZone|
    requires EndsLike(t, zone) && EndsInZone(t, otherZone, otherName)
    ensures LowerByte(zone[n - 1 + i]) == LowerByte(otherZone[i - 1])
  {
    assert t[|t| - |otherZone| + (i - 1)] == otherZone[i - 1];
    assert t[|t| - |zone| + (n - 1 + i)] == otherZone[i - 1];
  }

  lemma LowerDot(x: GoString, y: GoString)
    requires SameLetters(x, "." + y)
    ensures ToLower(x) == "." + ToLower(y)
  {
    FoldIsByLetters(x, "." + y);
    ToLowerConcat(".", y);
    assert ToLower(".") == ".";
  }

  /** Equal full names lie in nested zones. */
  lemma SameFullName(zone: GoString, name: GoString, otherZone: GoString, otherName: GoString)
    requires PlainZone(zone) && name != "" && Trimmed(name, IsDot) && Trimmed(name, IsSpace)
    requires PlainZone(otherZone) && otherName != "" && Trimmed(otherName, IsDot) && Trimmed(otherName, IsSpace)
    requires ToLower(FullName(zone, name)) == ToLower(FullName(otherZone, otherName))
    ensures Within(zone, otherZone) || Within(otherZone, zone)
  {
    var s, t := FullName(zone, name), FullName(otherZone, otherName);
    FullNameEnd(zone, name);
    FullNameEnd(otherZone, otherName);
    FoldIsByLetters(s, t);
    FoldIsByLetters(t, s);
    ZonesOfSameName(zone, s, name, otherZone, t, otherName);
  }

  lemma ZonesOfSameName(zone: GoString, s: GoString, name: GoString, otherZone: GoString, t: GoString, otherName: GoString)
    requires PlainZone(zone) && name != "" && Trimmed(name, IsDot) && Trimmed(name, IsSpace)
    requires PlainZone(otherZone) && otherName != "" && Trimmed(otherName, IsDot) && Trimmed(otherName, IsSpace)
    requires SameLetters(s, t) && SameLetters(t, s)
    requires EndsInZone(s, zone, name) && EndsInZone(t, otherZone, otherName)
    ensures Within(zone, otherZone) || Within(otherZone, zone)
  {
    if |zone| > |otherZone| {
      LettersOfZone(zone, s, name, t);
      LongerZone(zone, t, otherZone, otherName);
    } else if |zone| < |otherZone| {
      LettersOfZone(otherZone, t, otherName, s);
      LongerZone(otherZone, s, zone, name);
    } else {
      SameLength(zone, s, name, otherZone, t, otherName);
    }
  }

  lemma SameLength(zone: GoString, s: GoString, name: GoString, otherZone: GoString, t: GoString, otherName: GoString)
    requires |zone| == |otherZone| && SameLetters(s, t)
    requires EndsInZone(s, zone, name) && EndsInZone(t, otherZone, otherName)
    ensures EqualFold(zone, otherZone)
  {
    var k := |s| - |zone|;
    forall i | 0 <= i < |zone| ensures LowerByte(zone[i]) == LowerByte(otherZone[i]) {
      assert s[k + i] == zone[i] && t[k + i] == otherZone[i];
    }
    assert SameLetters(zone, otherZone);
    FoldIsByLetters(zone, otherZone);
  }

  /** In one zone, equal full names are equal names. */
  lemma SameFullNameInZone(zone: GoString, name: GoString, other: GoString)
    requires ToLower(FullName(zone, name)) == ToLower(FullName(zone, other))
    ensures EqualFold(name, other)
  {
    LowerFullName(zone, name);
    LowerFullName(zone, other);
    CutZone(ToLower(zone), ToLower(name), ToLower(other));
  }

  lemma CutZone(zone: GoString, name: GoString, other: GoString)
    requires FullName(zone, name) == FullName(zone, other)
    ensures name == other
  {
    if name != "@" && other != "@" {
      assert name == (name + "." + zone)[..|name|] && other == (other + "." + zone)[..|other|];
    }
  }

  lemma SameWithDot(a: GoString, b: GoString)
    ensures EqualFold(a + ".", b + ".") ==> EqualFold(a, b)
  {
    ToLowerConcat(a, ".");
    ToLowerConcat(b, ".");
    SameBeforeDot(ToLower(a), ToLower(b));
    assert ToLower(".") == ".";
  }

  /** Same PTR value: the same name in one zone, or nested zones. */
  lemma SamePtrValue(zone: GoString, name: GoString, otherZone: GoString, otherName: GoString)
    requires PlainZone(zone) && PlainName(name) && PlainZone(otherZone) && PlainName(otherName)
    requires SameText(PtrRecordFQDN(zone, name), PtrRecordFQDN(otherZone, otherName))
    ensures Within(zone, otherZone) || Within(otherZone, zone)
    ensures zone == otherZone ==> SameText(name, otherName)
  {
    PlainFQDN(zone, name);
    PlainFQDN(otherZone, otherName);
    var a, b := FullName(zone, TrimSpace(name)), FullName(otherZone, TrimSpace(otherName));
    SameWithDot(a, b);
    SameFullName(zone, TrimSpace(name), otherZone, TrimSpace(otherName));
    if zone == otherZone {
      SameFullNameInZone(zone, TrimSpace(name), TrimSpace(otherName));
    }
  }

  /** Same PTR name: the same address. */
  lemma SamePtrName(value: GoString, other: GoString)
    requires ParseIPv4(TrimSpace(value)).Parsed? && ParseIPv4(TrimSpace(other)).Parsed?
    requires SameText(TrimSpace(value) + ".", TrimSpace(other) + ".")
    ensures SameText(value, other)
  {
    FormatOfParse(TrimSpace(value), ParseIPv4(TrimSpace(value)).value);
    FormatOfParse(TrimSpace(other), ParseIPv4(TrimSpace(other)).value);
    AddressTrimmed(ParseIPv4(TrimSpace(value)).value);
    AddressTrimmed(ParseIPv4(TrimSpace(other)).value);
    SameWithDot(TrimSpace(value), TrimSpace(other));
  }

  lemma AIsKindA(typ: GoString)
    requires IsA(typ)
    ensures Kind(typ) == "A"
  {
    assert ToLower("A") == "a";
    assert |typ| == 1 && LowerByte(typ[0]) == 'a';
    assert Trimmed(typ, IsSpace);
    assert ToUpper(typ) == "A";
  }

  /** The PTR row of an A record lies in the zone of its address, under the name a listing of that zone
      shows, which both translations turn back into the last octet. */
  lemma PtrRowOfAddress(serverId: GoString, zoneName: GoString, r: Record, ip: Ip)
    requires ParseIPv4(TrimSpace(r.value)) == Parsed(ip)
    ensures var ptr := PtrRecordForARecord(serverId, zoneName, r);
            && ptr.Parsed? && ptr.value.zoneId == DNSZoneID(serverId, ReverseZone(ip))
            && ptr.value.name == DisplayName(ReverseZone(ip), OctetText(ip.d))
            && BackendName(ReverseZone(ip), "PTR", ptr.value.name) == OctetText(ip.d)
            && AgentName(ReverseZone(ip), ptr.value.name) == OctetText(ip.d)
  {
    FormatOfParse(TrimSpace(r.value), ip);
    DisplayOfOctet(ip, ReverseZone(ip));
    DisplayAndTranslate(ip, ReverseZone(ip), Format(ip) + ".");
  }
}
