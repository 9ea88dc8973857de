/** Names of PTR records. A zone listing shows them as full addresses; Windows stores them relative to
    their reverse zone. The backend and the DNS agent each have a translation, and both are applied. */
module PtrNames {
  import opened Text
  import opened Ipv4

  const SUFFIX: GoString := ".in-addr.arpa"

  function Octets(ip: Ip): seq<Octet> {
    [ip.a, ip.b, ip.c, ip.d]
  }

  function Reversed<T>(s: seq<T>): (r: seq<T>)
    ensures |r| == |s| && forall i :: 0 <= i < |s| ==> r[i] == s[|s| - 1 - i]
  {
    seq(|s|, i requires 0 <= i < |s| => s[|s| - 1 - i])
  }

  /** The first octet of `ip` after those of a reverse zone's network, if the zone has one to three
      octets and `ip` begins with them. */
  function OctetWithin(ip: Ip, network: GoString): Parsed<Octet> {
    var parts := Split(network, '.');
    if |parts| >= 4 || ParseOctets(Reversed(parts)) != Parsed(Octets(ip)[..|parts|]) then Malformed
    else Parsed(Octets(ip)[|parts|])
  }

  lemma {:induction false} ParseOctetsExactly(fields: seq<GoString>)
    ensures ParseOctets(fields).Parsed? <==> forall i :: 0 <= i < |fields| ==> ParseOctet(fields[i]).Parsed?
    ensures ParseOctets(fields).Parsed? ==>
              forall i :: 0 <= i < |fields| ==> ParseOctet(fields[i]) == Parsed(ParseOctets(fields).value[i])
  {
    if fields != [] {
      ParseOctetsExactly(fields[1..]);
      assert fields == [fields[0]] + fields[1..];
    }
  }

  /** Parsing "0.0.0." and a label is how the code parses one octet. */
  lemma OctetThroughAddress(part: GoString)
    requires !Contains(part, '.')
    ensures ParseIPv4("0.0.0." + part).Malformed? <==> ParseOctet(part).Malformed?
    ensures ParseOctet(part).Parsed? ==> ParseIPv4("0.0.0." + part).value.d == ParseOctet(part).value
  {
    ThreeZeros(part);
    ParseOctetsExactly(["0", "0", "0", part]);
    assert ParseOctet("0").Parsed?;
  }

  lemma ThreeZeros(part: GoString)
    requires !Contains(part, '.')
    ensures Split("0.0.0." + part, '.') == ["0", "0", "0", part]
  {
    var fields := ["0", "0", "0", part];
    JoinFour("0", "0", "0", part, '.');
    assert Join(fields, '.') == "0.0.0." + part;
    SplitJoin(fields, '.');
  }

  /** The first loop both implementations share: the octets of a network, its labels read backwards. */
  method NetworkOctets(parts: seq<GoString>) returns (expected: Parsed<seq<Octet>>)
    requires forall i :: 0 <= i < |parts| ==> !Contains(parts[i], '.')
    ensures expected == ParseOctets(Reversed(parts))
  {
    ParseOctetsExactly(Reversed(parts));
    var values: seq<Octet> := [];
    for i := |parts| downto 0
      invariant |values| == |parts| - i
      invariant forall k :: 0 <= k < |values| ==> ParseOctet(Reversed(parts)[k]) == Parsed(values[k])
    {
      OctetThroughAddress(parts[i]);
      assert Reversed(parts)[|parts| - 1 - i] == parts[i];
      var value := ParseIPv4("0.0.0." + parts[i]);
      if value.Malformed? {
        return Malformed;
      }
      values := values + [value.value.d];
    }
    expected := Parsed(values);
    assert ParseOctets(Reversed(parts)).value == values;
  }

  /** The second loop: does the address begin with these octets? */
  method BeginsWith(ip: Ip, expected: seq<Octet>) returns (r: bool)
    requires |expected| < 4
    ensures r <==> expected == Octets(ip)[..|expected|]
  {
    for i := 0 to |expected|
      invariant expected[..i] == Octets(ip)[..i]
    {
      if Octets(ip)[i] != expected[i] {
        assert Octets(ip)[..|expected|][i] != expected[i];
        return false;
      }
    }
    assert expected[..|expected|] == expected;
    r := true;
  }

  method RelativeOctet(ip: Ip, network: GoString) returns (r: Parsed<Octet>)
    ensures r == OctetWithin(ip, network)
  {
    var parts := Split(network, '.');
    if |parts| >= 4 {
      return Malformed;
    }
    SplitParts(network, '.');
    var expected := NetworkOctets(parts);
    if expected.Malformed? {
      return Malformed;
    }
    var begins := BeginsWith(ip, expected.value);
    r := if begins then Parsed(Octets(ip)[|parts|]) else Malformed;
  }

  function WithinReverseZone(ip: Ip, zone: GoString): Parsed<Octet> {
    if HasSuffix(zone, SUFFIX) then OctetWithin(ip, TrimSuffix(zone, SUFFIX)) else Malformed
  }

  function BackendZone(zoneName: GoString): GoString {
    ToLower(TrimSuffix(TrimSpace(zoneName), "."))
  }

  /** The backend's `dnsRecordAgentName`. */
  function BackendName(zoneName: GoString, recordType: GoString, recordName: GoString): GoString {
    var name := TrimSpace(recordName);
    var ip := ParseIPv4(TrimSuffix(name, "."));
    if !EqualFold(recordType, "PTR") || ip.Malformed? then name else
    var octet := WithinReverseZone(ip.value, BackendZone(zoneName));
    if octet.Malformed? then name else OctetText(octet.value)
  }

  /** The agent's `ptrRecordRelativeName`. */
  function AgentName(zone: GoString, recordName: GoString): GoString {
    var name := TrimDots(TrimSpace(recordName));
    var ip := ParseIPv4(name);
    if ip.Malformed? then name else
    var octet := OctetWithin(ip.value, TrimSuffix(ToLower(TrimSpace(zone)), SUFFIX));
    if octet.Malformed? then name else OctetText(octet.value)
  }

  /** The name a listing shows for a PTR record of `zone`. */
  function DisplayName(zone: GoString, name: GoString): GoString {
    if HasSuffix(ToLower(zone), SUFFIX) && name != "" && AllDigits(name)
    then Join(Reversed(Split(zone[..|zone| - |SUFFIX|], '.')) + [name], '.') + "."
    else name
  }

  /** Which names stay: for the backend, trimmed, those of other types and those that are no address but for
      a final dot; for the agent, without outer dots, those that are no address. */
  lemma NamesThatStay(zone: GoString, recordType: GoString, name: GoString)
    ensures !EqualFold(recordType, "PTR") ==> BackendName(zone, recordType, name) == TrimSpace(name)
    ensures ParseIPv4(TrimSuffix(TrimSpace(name), ".")).Malformed? ==> BackendName(zone, recordType, name) == TrimSpace(name)
    ensures ParseIPv4(TrimDots(TrimSpace(name))).Malformed? ==> AgentName(zone, name) == TrimDots(TrimSpace(name))
  {
  }

  predicate AllDots(s: GoString) {
    forall i :: 0 <= i < |s| ==> IsDot(s[i])
  }

  /** However many dots are around a name, the agent does not see them. */
  lemma AgentIgnoresOuterDots(zone: GoString, before: GoString, name: GoString, after: GoString)
    requires name != "" && Trimmed(name, IsDot) && Trimmed(name, IsSpace) && AllDots(before) && AllDots(after)
    ensures AgentName(zone, before + name + after) == AgentName(zone, name)
  {
    var s := before + name + after;
    assert s[0] == if before != "" then before[0] else name[0];
    assert s[|s| - 1] == if after != "" then after[|after| - 1] else name[|name| - 1];
    assert Trimmed(s, IsSpace);
    TrimOf(before, name, after, IsDot);
  }

  // ----- texts of addresses

  lemma AddressEnds(ip: Ip)
    ensures Format(ip) != "" && IsDigit(Format(ip)[0]) && IsDigit(Format(ip)[|Format(ip)| - 1])
    ensures Contains(Format(ip), '.')
  {
    var a, d := OctetText(ip.a), OctetText(ip.d);
    JoinFour(a, OctetText(ip.b), OctetText(ip.c), d, '.');
    assert OctetTexts(Octets(ip)) == [a, OctetText(ip.b), OctetText(ip.c), d];
    OctetTextHasNo(ip.a, '.');
    OctetTextHasNo(ip.d, '.');
    assert Format(ip)[0] == a[0] && Format(ip)[|Format(ip)| - 1] == d[|d| - 1];
    assert Format(ip)[|a|] == '.';
    IndexOfIsFirst(Format(ip), '.');
  }

  /** An address survives the trimming, with or without a final dot. */
  lemma AddressTrimmed(ip: Ip)
    ensures TrimDots(Format(ip)) == Format(ip) && TrimDots(Format(ip) + ".") == Format(ip)
    ensures TrimSuffix(Format(ip), ".") == Format(ip) && TrimSuffix(Format(ip) + ".", ".") == Format(ip)
    ensures TrimSpace(Format(ip)) == Format(ip) && TrimSpace(Format(ip) + ".") == Format(ip) + "."
  {
    AddressEnds(ip);
    var s := Format(ip);
    assert Trimmed(s, IsDot) && Trimmed(s, IsSpace) && Trimmed(s + ".", IsSpace);
    TrimFinalDot(s);
    assert (s + ".")[|s|..] == ".";
    assert s[|s| - 1..] == [s[|s| - 1]];
  }

  lemma TrimFinalDot(s: GoString)
    requires s != "" && Trimmed(s, IsDot)
    ensures TrimDots(s + ".") == s
  {
    assert CutLeft(s + ".", IsDot) == 0;
    assert (s + ".")[0..] == s + ".";
    assert (s + ".")[..|s|] == s;
    assert KeepRight(s + ".", IsDot) == KeepRight(s, IsDot) == |s|;
  }

  lemma OctetTextTrimmed(o: Octet)
    ensures TrimSpace(OctetText(o)) == OctetText(o) && TrimDots(OctetText(o)) == OctetText(o)
    ensures ParseIPv4(OctetText(o)).Malformed? && !Contains(OctetText(o), '.')
  {
    OctetTextHasNo(o, '.');
    var s := OctetText(o);
    assert IsDigit(s[0]) && IsDigit(s[|s| - 1]);
    assert Trimmed(s, IsSpace) && Trimmed(s, IsDot);
    assert Split(s, '.') == [s];
  }

  /** What the backend reads as an address, the agent reads as the same address. */
  lemma SameAddressRead(name: GoString, ip: Ip)
    requires ParseIPv4(TrimSuffix(name, ".")) == Parsed(ip)
    ensures TrimDots(name) == Format(ip) && (name == Format(ip) || name == Format(ip) + ".")
  {
    FormatOfParse(TrimSuffix(name, "."), ip);
    AddressTrimmed(ip);
  }

  // ----- the two translations in sequence

  /** The name reads as an address of the zone the backend sees. */
  predicate Translates(zone: GoString, name: GoString) {
    var ip := ParseIPv4(TrimSuffix(TrimSpace(name), "."));
    ip.Parsed? && WithinReverseZone(ip.value, BackendZone(zone)).Parsed?
  }

  /** The backend changes a name only to an octet of the address it reads in it. */
  lemma TranslationIsAnOctet(zone: GoString, name: GoString) returns (ip: Ip, octet: Octet)
    requires Translates(zone, name)
    ensures ParseIPv4(TrimSuffix(TrimSpace(name), ".")) == Parsed(ip)
    ensures BackendName(zone, "PTR", name) == OctetText(octet)
    ensures WithinReverseZone(ip, BackendZone(zone)) == Parsed(octet)
  {
    ip := ParseIPv4(TrimSuffix(TrimSpace(name), ".")).value;
    octet := WithinReverseZone(ip, BackendZone(zone)).value;
  }

  /** A zone that ends with a dot has no octets for the agent. */
  lemma FinalDotHidesOctets(zone: GoString, ip: Ip)
    requires HasSuffix(TrimSpace(zone), ".")
    ensures OctetWithin(ip, TrimSuffix(ToLower(TrimSpace(zone)), SUFFIX)).Malformed?
  {
    var network := ToLower(TrimSpace(zone));
    LastOfSuffix(TrimSpace(zone), ".");
    assert network[|network| - 1] == '.';
    LastOfSuffix(network, SUFFIX);
    NoOctetsBeforeFinalDot(network, ip);
  }

  lemma NoOctetsBeforeFinalDot(network: GoString, ip: Ip)
    requires network != "" && network[|network| - 1] == '.'
    ensures OctetWithin(ip, network).Malformed?
  {
    LastPartOfFinalDot(network);
    var parts := Split(network, '.');
    ParseOctetsExactly(Reversed(parts));
    assert Reversed(parts)[0] == "" && ParseOctet("").Malformed?;
  }

  lemma LastOfSuffix(s: GoString, suffix: GoString)
    requires s != "" && suffix != ""
    ensures HasSuffix(s, suffix) ==> s[|s| - 1] == suffix[|suffix| - 1]
  {
    if HasSuffix(s, suffix) {
      assert s[|s| - |suffix|..][|suffix| - 1] == s[|s| - 1];
    }
  }

  lemma {:induction false} FinalDotFound(s: GoString)
    requires s != "" && s[|s| - 1] == '.'
    ensures IndexOf(s, '.') < |s|
  {
    if s[0] != '.' {
      FinalDotFound(s[1..]);
    }
  }

  lemma {:induction false} LastPartOfFinalDot(s: GoString)
    requires s != "" && s[|s| - 1] == '.'
    ensures var parts := Split(s, '.'); parts[|parts| - 1] == ""
    decreases |s|
  {
    FinalDotFound(s);
    var i := IndexOf(s, '.');
    var rest := Split(s[i + 1..], '.');
    assert Split(s, '.') == [s[..i]] + rest;
    if i + 1 < |s| {
      LastPartOfFinalDot(s[i + 1..]);
    } else {
      assert s[i + 1..] == "" && rest == [""];
    }
  }

  lemma NoFinalDot(zone: GoString)
    requires !HasSuffix(TrimSpace(zone), ".")
    ensures TrimSuffix(TrimSpace(zone), ".") == TrimSpace(zone)
  {
  }

  lemma TranslatedTwice(zone: GoString, name: GoString)
    requires Translates(zone, name)
    ensures AgentName(zone, BackendName(zone, "PTR", name)) == AgentName(zone, name) <==> !HasSuffix(TrimSpace(zone), ".")
  {
    var ip, octet := TranslationIsAnOctet(zone, name);
    OctetTextTrimmed(octet);
    SameAddressRead(TrimSpace(name), ip);
    ParseOfFormat(ip);
    if HasSuffix(TrimSpace(zone), ".") {
      FinalDotHidesOctets(zone, ip);
      AddressEnds(ip);
    } else {
      NoFinalDot(zone);
    }
  }

  /** The agent's translation after the backend's equals the agent's alone, for every zone and name,
      except exactly where the zone ends with a dot and the name is an address that the backend finds in it. */
  lemma AgentAbsorbsBackend(zone: GoString, name: GoString)
    ensures AgentName(zone, BackendName(zone, "PTR", name)) == AgentName(zone, name) <==>
            !(HasSuffix(TrimSpace(zone), ".") && Translates(zone, name))
  {
    if Translates(zone, name) {
      TranslatedTwice(zone, name);
    } else {
      assert TrimSpace(TrimSpace(name)) == TrimSpace(name);
    }
  }

  // ----- three-octet zones

  /** The reverse zone of an address, as `ipv4ReverseZone` and the agent print it. */
  function ReverseZone(ip: Ip): GoString {
    Network(ip) + SUFFIX
  }

  function Network(ip: Ip): GoString {
    Join(OctetTexts([ip.c, ip.b, ip.a]), '.')
  }

  /** The backend's `ipv4ReverseZone`. */
  function IPv4ReverseZone(value: GoString): Parsed<GoString> {
    var ip := ParseIPv4(TrimSpace(value));
    if ip.Malformed? then Malformed else Parsed(ReverseZone(ip.value))
  }

  lemma OctetTextLabels(o: seq<Octet>)
    ensures forall i :: 0 <= i < |o| ==> !Contains(OctetTexts(o)[i], '.')
  {
    forall i | 0 <= i < |o| ensures !Contains(OctetTexts(o)[i], '.') {
      OctetTextHasNo(o[i], '.');
    }
  }

  lemma NetworkSplits(ip: Ip)
    ensures Split(Network(ip), '.') == OctetTexts([ip.c, ip.b, ip.a])
    ensures Reversed(Split(Network(ip), '.')) == OctetTexts([ip.a, ip.b, ip.c])
  {
    OctetTextLabels([ip.c, ip.b, ip.a]);
    SplitJoin(OctetTexts([ip.c, ip.b, ip.a]), '.');
  }

  lemma OctetWithinNetwork(ip: Ip, other: Ip)
    ensures OctetWithin(other, Network(ip)) ==
            if other.a == ip.a && other.b == ip.b && other.c == ip.c then Parsed(other.d) else Malformed
  {
    NetworkSplits(ip);
    OctetsAreCanonical(OctetTexts([ip.a, ip.b, ip.c]), [ip.a, ip.b, ip.c]);
    assert Octets(other)[..3] == [other.a, other.b, other.c];
  }

  predicate IsDigitOrDot(c: char) {
    IsDigit(c) || c == '.'
  }

  lemma {:induction false} JoinedDigits(parts: seq<GoString>)
    requires forall i :: 0 <= i < |parts| ==> AllDigits(parts[i])
    ensures forall i :: 0 <= i < |Join(parts, '.')| ==> IsDigitOrDot(Join(parts, '.')[i])
  {
    if |parts| > 1 {
      JoinedDigits(parts[1..]);
    }
  }

  lemma NetworkText(ip: Ip)
    ensures forall i :: 0 <= i < |Network(ip)| ==> IsDigitOrDot(Network(ip)[i])
    ensures Network(ip) != "" && IsDigit(Network(ip)[0])
  {
    OctetTextHasNo(ip.a, '.');
    OctetTextHasNo(ip.b, '.');
    OctetTextHasNo(ip.c, '.');
    JoinedDigits(OctetTexts([ip.c, ip.b, ip.a]));
    assert Network(ip)[0] == OctetText(ip.c)[0];
  }

  lemma DigitsHaveNoCase(network: GoString, s: GoString)
    requires |s| == |network| && forall i :: 0 <= i < |s| ==> IsDigitOrDot(network[i]) && LowerByte(s[i]) == network[i]
    ensures s == network
  {
    assert forall i :: 0 <= i < |s| ==> s[i] == network[i];
  }

  lemma CutsAt(network: GoString, suffix: GoString)
    ensures var s := network + suffix;
            s[|network|..] == suffix && s[..|network|] == network && HasSuffix(s, suffix) && TrimSuffix(s, suffix) == network
  {
    var s := network + suffix;
    assert s[|network|..] == suffix && s[..|network|] == network;
  }

  lemma SuffixInAnyCase(network: GoString, suffix: GoString, zone: GoString)
    requires ToLower(zone) == network + suffix
    requires forall i :: 0 <= i < |network| ==> IsDigitOrDot(network[i])
    ensures |zone| == |network| + |suffix| && zone[..|network|] == network
    ensures HasSuffix(ToLower(zone), suffix) && TrimSuffix(ToLower(zone), suffix) == network
  {
    CutsAt(network, suffix);
    PrefixInAnyCase(network, suffix, zone);
  }

  lemma PrefixInAnyCase(network: GoString, suffix: GoString, zone: GoString)
    requires ToLower(zone) == network + suffix
    requires forall i :: 0 <= i < |network| ==> IsDigitOrDot(network[i])
    ensures |zone| == |network| + |suffix| && zone[..|network|] == network
  {
    var n := |network|;
    assert forall i :: 0 <= i < n ==> LowerByte(zone[i]) == ToLower(zone)[i] == network[i];
    DigitsHaveNoCase(network, zone[..n]);
  }

  lemma SuffixIsLower()
    ensures ToLower(SUFFIX) == SUFFIX
  {
    assert forall i :: 0 <= i < |SUFFIX| ==> LowerByte(SUFFIX[i]) == SUFFIX[i];
  }

  /** However its letters are cased, such a zone gives every translation the same network. */
  lemma ZoneInAnyCase(ip: Ip, zone: GoString)
    requires EqualFold(zone, ReverseZone(ip))
    ensures |zone| >= |SUFFIX| && zone[..|zone| - |SUFFIX|] == Network(ip)
    ensures HasSuffix(ToLower(zone), SUFFIX) && TrimSuffix(ToLower(zone), SUFFIX) == Network(ip)
    ensures TrimSpace(zone) == zone && TrimSuffix(zone, ".") == zone
  {
    NetworkText(ip);
    ToLowerConcat(Network(ip), SUFFIX);
    SuffixIsLower();
    DigitsLower(Network(ip));
    SuffixInAnyCase(Network(ip), SUFFIX, zone);
    LastOfSuffix(ToLower(zone), SUFFIX);
    EdgesInAnyCase(zone);
  }

  lemma DigitsLower(network: GoString)
    requires forall i :: 0 <= i < |network| ==> IsDigitOrDot(network[i])
    ensures ToLower(network) == network
  {
    assert forall i :: 0 <= i < |network| ==> ToLower(network)[i] == LowerByte(network[i]) == network[i];
  }

  lemma EdgesInAnyCase(zone: GoString)
    requires zone != "" && IsDigit(LowerByte(zone[0])) && LowerByte(zone[|zone| - 1]) == 'a'
    ensures TrimSpace(zone) == zone && TrimSuffix(zone, ".") == zone
  {
    assert Trimmed(zone, IsSpace);
    LastOfSuffix(zone, ".");
  }

  /** Both translations on a three-octet zone: an address of the zone becomes its last octet, and no
      other address changes. */
  lemma AgentOnAddress(ip: Ip, zone: GoString, other: Ip)
    requires EqualFold(zone, ReverseZone(ip))
    ensures AgentName(zone, Format(other)) == AgentName(zone, Format(other) + ".") ==
            if OctetWithin(other, Network(ip)).Parsed? then OctetText(other.d) else Format(other)
  {
    ZoneInAnyCase(ip, zone);
    AddressTrimmed(other);
    ParseOfFormat(other);
    OctetWithinNetwork(ip, other);
  }

  lemma BackendOnAddress(ip: Ip, zone: GoString, other: Ip)
    requires EqualFold(zone, ReverseZone(ip))
    ensures BackendName(zone, "PTR", Format(other) + ".") ==
            if OctetWithin(other, Network(ip)).Parsed? then OctetText(other.d) else Format(other) + "."
  {
    ZoneInAnyCase(ip, zone);
    AddressTrimmed(other);
    ParseOfFormat(other);
    OctetWithinNetwork(ip, other);
  }

  lemma WithFinalDot(zone: GoString)
    requires zone != "" && Trimmed(zone, IsSpace)
    ensures TrimSpace(zone + ".") == zone + "." && HasSuffix(zone + ".", ".") && TrimSuffix(zone + ".", ".") == zone
  {
    assert (zone + ".")[|zone|..] == ".";
    assert Trimmed(zone + ".", IsSpace);
  }

  /** For example any address in its own zone, written with a final dot: the agent alone keeps the address,
      and the backend makes it an octet. */
  lemma FinalDotExample(ip: Ip)
    ensures var zone := ReverseZone(ip) + ".";
            AgentName(zone, BackendName(zone, "PTR", Format(ip))) != AgentName(zone, Format(ip))
  {
    ZoneInAnyCase(ip, ReverseZone(ip));
    NetworkText(ip);
    WithFinalDot(ReverseZone(ip));
    AddressTrimmed(ip);
    ParseOfFormat(ip);
    OctetWithinNetwork(ip, ip);
    AgentAbsorbsBackend(ReverseZone(ip) + ".", Format(ip));
  }

  lemma DisplayedText(ip: Ip, zone: GoString, name: GoString)
    requires EqualFold(zone, ReverseZone(ip)) && name != "" && AllDigits(name)
    ensures DisplayName(zone, name) == Join(OctetTexts([ip.a, ip.b, ip.c]) + [name], '.') + "."
  {
    ZoneInAnyCase(ip, zone);
    NetworkSplits(ip);
  }

  /** A record's relative octet is listed as its full address. */
  lemma DisplayOfOctet(ip: Ip, zone: GoString)
    requires EqualFold(zone, ReverseZone(ip))
    ensures DisplayName(zone, OctetText(ip.d)) == Format(ip) + "."
  {
    OctetTextHasNo(ip.d, '.');
    DisplayedText(ip, zone, OctetText(ip.d));
    assert OctetTexts([ip.a, ip.b, ip.c]) + [OctetText(ip.d)] == OctetTexts(Octets(ip));
  }

  /** An address with a final dot. */
  function DottedAddress(ip: Ip): GoString {
    Format(ip) + "."
  }

  /** Displaying an octet and translating the displayed name undo each other, in both implementations. */
  lemma DisplayAndTranslate(ip: Ip, zone: GoString, shown: GoString)
    requires EqualFold(zone, ReverseZone(ip)) && shown == DisplayName(zone, OctetText(ip.d))
    ensures shown == DottedAddress(ip)
    ensures AgentName(zone, shown) == OctetText(ip.d)
    ensures BackendName(zone, "PTR", shown) == OctetText(ip.d)
  {
    DisplayOfOctet(ip, zone);
    AgentOnAddress(ip, zone, ip);
    BackendOnAddress(ip, zone, ip);
    OctetWithinNetwork(ip, ip);
  }

  /** What a listing of digits that are no octet (such as "007" or "256") parses to: nothing. */
  lemma DisplayOfNoOctet(ip: Ip, name: GoString)
    requires name != "" && AllDigits(name) && ParseOctet(name).Malformed?
    ensures ParseIPv4(Join(OctetTexts([ip.a, ip.b, ip.c]) + [name], '.')).Malformed?
  {
    var fields := OctetTexts([ip.a, ip.b, ip.c]) + [name];
    OctetTextLabels([ip.a, ip.b, ip.c]);
    DigitsHaveNo(name, '.');
    SplitJoin(fields, '.');
    ParseOctetsExactly(fields);
    assert fields[3] == name;
  }

  /** The round trip through the listing holds for exactly the canonical octets among the names of digits. */
  lemma RoundTripExactlyForOctets(ip: Ip, zone: GoString, name: GoString)
    requires EqualFold(zone, ReverseZone(ip)) && name != "" && AllDigits(name)
    ensures AgentName(zone, DisplayName(zone, name)) == name <==> ParseOctet(name).Parsed?
  {
    if ParseOctet(name).Parsed? {
      OctetTextIsCanonical(name, ParseOctet(name).value);
      DisplayAndTranslate(ip.(d := ParseOctet(name).value), zone, DisplayName(zone, name));
    } else {
      DisplayedText(ip, zone, name);
      DisplayOfNoOctet(ip, name);
      var shown := Join(OctetTexts([ip.a, ip.b, ip.c]) + [name], '.');
      ShownName(ip, name);
      AddressLikeTrimmed(shown);
    }
  }

  lemma ShownName(ip: Ip, name: GoString)
    requires name != "" && AllDigits(name)
    ensures var shown := Join(OctetTexts([ip.a, ip.b, ip.c]) + [name], '.');
            shown != "" && IsDigit(shown[0]) && IsDigit(shown[|shown| - 1]) && |shown| > |name|
  {
    var a := OctetText(ip.a);
    JoinFour(a, OctetText(ip.b), OctetText(ip.c), name, '.');
    assert OctetTexts([ip.a, ip.b, ip.c]) + [name] == [a, OctetText(ip.b), OctetText(ip.c), name];
    OctetTextHasNo(ip.a, '.');
    assert Join([a, OctetText(ip.b), OctetText(ip.c), name], '.')[0] == a[0];
  }

  lemma AddressLikeTrimmed(s: GoString)
    requires s != "" && IsDigit(s[0]) && IsDigit(s[|s| - 1])
    ensures TrimDots(TrimSpace(s + ".")) == s
  {
    assert Trimmed(s, IsDot) && Trimmed(s + ".", IsSpace);
    TrimFinalDot(s);
  }
}
