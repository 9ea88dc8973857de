/** The address checks on DHCP scopes. The backend and the DHCP agent each parse the subnet and check
    the gateway in their own way; the agent also checks ranges and turns a mask into a prefix. */
module DhcpAddresses {
  import opened Text
  import opened Ipv4

  datatype Subnet = Subnet(ip: Ip, prefix: nat)

  function DigitsValue(s: GoString): nat
    requires AllDigits(s)
  {
    if s == "" then 0 else 10 * DigitsValue(s[..|s| - 1]) + ValueOf(s[|s| - 1])
  }

  function DigitRun(s: GoString): (n: nat)
    ensures n <= |s| && AllDigits(s[..n])
    ensures AllDigits(s) ==> n == |s|
  {
    if s != "" && IsDigit(s[0]) then 1 + DigitRun(s[1..]) else 0
  }

  /** `Sscanf` with `%d`: an optional sign and as many digits as there are; what follows is ignored. */
  function ScanInt(s: GoString): Parsed<int> {
    var signed := s != "" && (s[0] == '+' || s[0] == '-');
    var rest := if signed then s[1..] else s;
    if DigitRun(rest) == 0 then Malformed
    else
      var v: int := DigitsValue(rest[..DigitRun(rest)]);
      Parsed(if signed && s[0] == '-' then -v else v)
  }

  /** A sign or none, then all the digits there are, then anything. */
  lemma {:induction false} ScanIntExactly(sign: GoString, digits: GoString, rest: GoString)
    requires sign in {"", "+", "-"} && AllDigits(digits) && (rest == "" || !IsDigit(rest[0]))
    requires digits == "" && sign == "" ==> rest == "" || (rest[0] != '+' && rest[0] != '-')
    ensures ScanInt(sign + digits + rest) ==
            if digits == "" then Malformed else (var v: int := DigitsValue(digits); Parsed(if sign == "-" then -v else v))
  {
    var text := sign + digits + rest;
    var signed := text != "" && (text[0] == '+' || text[0] == '-');
    if sign == "" {
      assert text == digits + rest;
      assert digits != "" ==> text[0] == digits[0] && IsDigit(text[0]);
    } else {
      assert text[0] == sign[0];
      assert text[1..] == digits + rest;
    }
    DigitRunOf(digits, rest);
    assert (digits + rest)[..|digits|] == digits;
  }

  lemma {:induction false} DigitRunOf(digits: GoString, rest: GoString)
    requires AllDigits(digits) && (rest == "" || !IsDigit(rest[0]))
    ensures DigitRun(digits + rest) == |digits|
  {
    if digits != "" {
      assert (digits + rest)[1..] == digits[1..] + rest;
      DigitRunOf(digits[1..], rest);
    } else {
      assert digits + rest == rest;
    }
  }

  /** The backend's `parseDHCPScopeSubnet`. */
  function BackendSubnet(text: GoString): Parsed<Subnet> {
    var parts := Split(TrimSpace(text), '/');
    if |parts| != 2 then Malformed else
    var ip := ParseIPv4(TrimSpace(parts[0]));
    var prefix := ScanInt(TrimSpace(parts[1]));
    if ip.Malformed? || TrimSpace(parts[1]) == "" || prefix.Malformed? || !(0 <= prefix.value <= 32) then Malformed
    else Parsed(Subnet(ip.value, prefix.value))
  }

  /** `net.ParseCIDR` on IPv4: only digits after the first slash. */
  function ParseCIDR(text: GoString): Parsed<Subnet> {
    var i := IndexOf(text, '/');
    if i == |text| then Malformed else
    var ip, digits := ParseIPv4(text[..i]), text[i + 1..];
    if ip.Malformed? || digits == "" || !AllDigits(digits) || DigitsValue(digits) > 32 then Malformed
    else Parsed(Subnet(ip.value, DigitsValue(digits)))
  }

  /** The agent's `parseScopeSubnet`: the address and the mask, both as text again. */
  function AgentSubnet(text: GoString): Parsed<(GoString, GoString)> {
    var value := TrimSpace(text);
    if value == "" then Malformed else
    var subnet := ParseCIDR(value);
    if subnet.Malformed? then Malformed
    else Parsed((Format(subnet.value.ip), Format(CIDRMask(subnet.value.prefix))))
  }

  datatype Verdict = Accepted | NoGateway | NotAnAddress | BadSubnet | OutsideSubnet | ReservedAddress

  /** The masked comparison, which is the same in both: in the subnet, not its first or last address. */
  function InSubnet(scope: Ip, mask: Ip, value: Ip): Verdict {
    var network := Masked(scope, mask);
    if Masked(value, mask) != network then OutsideSubnet
    else if Uint32(value) == Uint32(network) || Uint32(value) == Broadcast(network, mask) then ReservedAddress
    else Accepted
  }

  /** The backend's `validateDHCPScopeDefaultGateway`. */
  function BackendGateway(subnetText: GoString, gatewayText: GoString): Verdict {
    var text := TrimSpace(gatewayText);
    if text == "" then NoGateway else
    var ip := ParseIPv4(text);
    if ip.Malformed? then NotAnAddress else
    var subnet := BackendSubnet(subnetText);
    if subnet.Malformed? then BadSubnet
    else InSubnet(subnet.value.ip, CIDRMask(subnet.value.prefix), ip.value)
  }

  /** The agent's `validateIPv4InScope`. */
  function AgentInScope(scopeText: GoString, maskText: GoString, valueText: GoString): Verdict {
    var scope, mask, value := ParseIPv4(TrimSpace(scopeText)), ParseIPv4(TrimSpace(maskText)), ParseIPv4(TrimSpace(valueText));
    if scope.Malformed? || mask.Malformed? || value.Malformed? then NotAnAddress
    else InSubnet(scope.value, mask.value, value.value)
  }

  /** The agent's checks of the gateway in `normalizeScopeUpdate`, for a scope that has a subnet. */
  function AgentGateway(subnetText: GoString, gatewayText: GoString): Verdict {
    var text := TrimSpace(gatewayText);
    if text == "" then NoGateway
    else if ParseIPv4(text).Malformed? then NotAnAddress
    else
      var subnet := AgentSubnet(TrimSpace(subnetText));
      if subnet.Malformed? then BadSubnet else AgentInScope(subnet.value.0, subnet.value.1, text)
  }

  function SubnetText(s: Subnet): GoString
    requires s.prefix <= 32
  {
    Format(s.ip) + "/" + OctetText(s.prefix)
  }

  lemma {:induction false} DigitsSnoc(s: GoString, c: Byte)
    requires AllDigits(s) && IsDigit(c)
    ensures AllDigits(s + [c]) && DigitsValue(s + [c]) == 10 * DigitsValue(s) + ValueOf(c)
  {
    assert (s + [c])[..|s|] == s;
  }

  lemma DigitsOfOne(x: int)
    requires 0 <= x < 10
    ensures AllDigits([DigitOf(x)]) && DigitsValue([DigitOf(x)]) == x
  {
    DigitOfValue('0', x);
    OneDigit(DigitOf(x));
  }

  lemma OneDigit(c: Byte)
    requires IsDigit(c)
    ensures AllDigits([c]) && DigitsValue([c]) == ValueOf(c)
  {
    assert [c][..0] == "";
  }

  lemma DigitsOfTwo(x: int, y: int)
    requires 0 <= x < 10 && 0 <= y < 10
    ensures AllDigits([DigitOf(x), DigitOf(y)]) && DigitsValue([DigitOf(x), DigitOf(y)]) == 10 * x + y
  {
    DigitsOfOne(x);
    DigitOfValue('0', y);
    DigitsSnoc([DigitOf(x)], DigitOf(y));
    assert [DigitOf(x)] + [DigitOf(y)] == [DigitOf(x), DigitOf(y)];
  }

  lemma DigitsOfOctetText(o: Octet)
    ensures AllDigits(OctetText(o)) && DigitsValue(OctetText(o)) == o
  {
    if o < 10 {
      DigitsOfOne(o);
    } else if o < 100 {
      DigitsOfTwo(o / 10, o % 10);
    } else {
      var x, y, z := DigitOf(o / 100), DigitOf(o / 10 % 10), DigitOf(o % 10);
      DigitsOfTwo(o / 100, o / 10 % 10);
      DigitOfValue('0', o % 10);
      DigitsSnoc([x, y], z);
      assert [x, y] + [z] == [x, y, z];
    }
  }

  lemma ParseOfSubnetText(s: Subnet)
    requires s.prefix <= 32
    ensures ParseCIDR(TrimSpace(SubnetText(s))) == Parsed(s)
  {
    DigitsOfOctetText(s.prefix);
    AddressText(s.ip);
    TextBeforeSlash(Format(s.ip), OctetText(s.prefix));
  }

  lemma ScanOfDigits(digits: GoString)
    requires digits != "" && AllDigits(digits)
    ensures ScanInt(digits) == Parsed(DigitsValue(digits)) && TrimSpace(digits) == digits
    ensures Split(digits, '/') == [digits] && !IsSpace(digits[0]) && !IsSpace(digits[|digits| - 1])
  {
    assert digits[..DigitRun(digits)] == digits;
    assert IsDigit(digits[0]) && IsDigit(digits[|digits| - 1]);
    assert Trimmed(digits, IsSpace);
    DigitsHaveNo(digits, '/');
  }

  /** What the backend makes of an address, a slash and something more. */
  lemma BackendSubnetOf(ip: Ip, rest: GoString)
    requires rest != "" && !IsSpace(rest[0]) && !IsSpace(rest[|rest| - 1]) && Split(rest, '/') == [rest]
    ensures BackendSubnet(Format(ip) + "/" + rest) ==
            if ScanInt(rest).Parsed? && 0 <= ScanInt(rest).value <= 32 then Parsed(Subnet(ip, ScanInt(rest).value)) else Malformed
  {
    AddressText(ip);
    TextBeforeSlash(Format(ip), rest);
    assert Trimmed(rest, IsSpace);
  }

  /** A text with one slash is parsed from what is on either side, white space around both aside; and what
      white space is around the whole does not matter. */
  lemma BackendSubnetExactly(text: GoString, addr: GoString, mask: GoString)
    requires TrimSpace(text) == addr + "/" + mask && '/' !in addr && '/' !in mask
    ensures var ip, prefix := ParseIPv4(TrimSpace(addr)), ScanInt(TrimSpace(mask));
            BackendSubnet(text) ==
            if ip.Parsed? && prefix.Parsed? && 0 <= prefix.value <= 32 then Parsed(Subnet(ip.value, prefix.value)) else Malformed
  {
    IndexOfIsFirst(addr, '/');
    IndexOfIsFirst(mask, '/');
    assert addr + "/" + mask == addr + ['/'] + mask;
    SplitAtSeparator(addr, mask, '/');
    assert Split(mask, '/') == [mask];
    assert ScanInt("").Malformed?;
  }

  /** Without a slash, or with more than one, it is no subnet. */
  lemma OneSlashIsNeeded(text: GoString, addr: GoString, rest: GoString)
    ensures '/' !in TrimSpace(text) ==> BackendSubnet(text).Malformed?
    ensures TrimSpace(text) == addr + "/" + rest && '/' !in addr && '/' in rest ==> BackendSubnet(text).Malformed?
  {
    IndexOfIsFirst(TrimSpace(text), '/');
    IndexOfIsFirst(addr, '/');
    IndexOfIsFirst(rest, '/');
    if '/' !in addr {
      assert addr + "/" + rest == addr + ['/'] + rest;
      SplitAtSeparator(addr, rest, '/');
    }
  }

  lemma ParseCIDRParts(value: GoString) returns (ip: Ip, digits: GoString)
    requires ParseCIDR(value).Parsed?
    ensures digits != "" && AllDigits(digits) && value == Format(ip) + "/" + digits
    ensures ParseCIDR(value) == Parsed(Subnet(ip, DigitsValue(digits))) && DigitsValue(digits) <= 32
  {
    var i := IndexOf(value, '/');
    digits := value[i + 1..];
    ip := ParseIPv4(value[..i]).value;
    FormatOfParse(value[..i], ip);
    assert value == value[..i] + [value[i]] + digits;
  }

  /** Whatever subnet text the agent can parse, the backend parses to the same subnet. */
  lemma BackendParsesWhatAgentParses(text: GoString)
    requires ParseCIDR(TrimSpace(text)).Parsed?
    ensures BackendSubnet(text) == ParseCIDR(TrimSpace(text))
  {
    var ip, digits := ParseCIDRParts(TrimSpace(text));
    ScanOfDigits(digits);
    BackendSubnetOf(ip, digits);
    BackendTrimsFirst(text);
  }

  lemma BackendTrimsFirst(text: GoString)
    ensures BackendSubnet(TrimSpace(text)) == BackendSubnet(text)
  {
    assert TrimSpace(TrimSpace(text)) == TrimSpace(text);
  }

  /** An address without outer white space, one slash, and nothing but digits. */
  predicate Strict(text: GoString) {
    var parts := Split(TrimSpace(text), '/');
    |parts| == 2 && TrimSpace(parts[0]) == parts[0] && AllDigits(parts[1])
  }

  lemma StrictIsParsed(text: GoString)
    requires BackendSubnet(text).Parsed? && Strict(text)
    ensures ParseCIDR(TrimSpace(text)).Parsed?
  {
    var parts := Split(TrimSpace(text), '/');
    TwoParts(TrimSpace(text));
    FirstSlash(parts[0], parts[1]);
    assert parts[1] != "" by { assert TrimSpace("") == ""; }
    ScanOfDigits(parts[1]);
  }

  lemma TwoParts(value: GoString)
    requires |Split(value, '/')| == 2
    ensures var parts := Split(value, '/'); value == parts[0] + "/" + parts[1] && !Contains(parts[0], '/')
  {
    var parts := Split(value, '/');
    JoinSplit(value, '/');
    SplitParts(value, '/');
    assert parts[1..] == [parts[1]];
  }

  lemma ParsedIsStrict(text: GoString)
    requires ParseCIDR(TrimSpace(text)).Parsed?
    ensures Strict(text)
  {
    var ip, digits := ParseCIDRParts(TrimSpace(text));
    ScanOfDigits(digits);
    AddressText(ip);
    TextBeforeSlash(Format(ip), digits);
  }

  /** Of the subnet texts the backend parses, the agent parses exactly the strict ones. */
  lemma AgentParsesExactly(text: GoString)
    requires BackendSubnet(text).Parsed?
    ensures ParseCIDR(TrimSpace(text)).Parsed? <==> Strict(text)
  {
    if Strict(text) {
      StrictIsParsed(text);
    }
    if ParseCIDR(TrimSpace(text)).Parsed? {
      ParsedIsStrict(text);
    }
  }

  /** For example, the backend ignores what follows the digits of the prefix. */
  lemma BackendParsesMore(ip: Ip)
    ensures BackendSubnet(Format(ip) + "/" + "8x") == Parsed(Subnet(ip, 8))
    ensures ParseCIDR(TrimSpace(Format(ip) + "/" + "8x")).Malformed?
  {
    AddressText(ip);
    TextBeforeSlash(Format(ip), "8x");
    ScanOfJunk();
    BackendSubnetOf(ip, "8x");
  }

  lemma ScanOfJunk()
    ensures ScanInt("8x") == Parsed(8) && Split("8x", '/') == ["8x"] && !AllDigits("8x")
  {
    assert DigitRun("8x") == 1 by { assert "8x"[1..] == "x"; }
    assert "8x"[..1] == "8" && "8"[..0] == "";
    assert DigitsValue("8") == 8;
    assert "8x"[1] == 'x';
  }

  /** How both parsers take a text apart that is an address, a slash and something more. */
  lemma TextBeforeSlash(addr: GoString, rest: GoString)
    requires addr != "" && !Contains(addr, '/') && !IsSpace(addr[0])
    requires rest != "" && !IsSpace(rest[|rest| - 1])
    ensures var text := addr + "/" + rest;
            && TrimSpace(text) == text
            && Split(text, '/') == [addr] + Split(rest, '/')
            && IndexOf(text, '/') == |addr| < |text|
            && text[..|addr|] == addr && text[|addr| + 1..] == rest
  {
    assert addr + "/" + rest == addr + ['/'] + rest;
    SplitAtSeparator(addr, rest, '/');
    TrimmedAroundSlash(addr, rest);
    FirstSlash(addr, rest);
  }

  lemma TrimmedAroundSlash(addr: GoString, rest: GoString)
    requires addr != "" && !IsSpace(addr[0])
    requires rest != "" && !IsSpace(rest[|rest| - 1])
    ensures TrimSpace(addr + "/" + rest) == addr + "/" + rest
  {
    var text := addr + "/" + rest;
    assert text[0] == addr[0] && text[|text| - 1] == rest[|rest| - 1];
    assert Trimmed(text, IsSpace);
  }

  lemma FirstSlash(addr: GoString, rest: GoString)
    requires !Contains(addr, '/')
    ensures var text := addr + "/" + rest;
            IndexOf(text, '/') == |addr| < |text| && text[..|addr|] == addr && text[|addr| + 1..] == rest
  {
    assert addr + "/" + rest == addr + (['/'] + rest);
    IndexOfConcat(addr, ['/'] + rest, '/');
  }

  lemma AgentSubnetParsed(text: GoString)
    requires ParseCIDR(TrimSpace(text)).Parsed?
    ensures var s := ParseCIDR(TrimSpace(text)).value;
            AgentSubnet(TrimSpace(text)) == Parsed((Format(s.ip), Format(CIDRMask(s.prefix))))
  {
    assert TrimSpace(TrimSpace(text)) == TrimSpace(text) != "";
  }

  lemma AgentReadsBack(scope: Ip, mask: Ip, text: GoString, value: Ip)
    requires ParseIPv4(TrimSpace(text)) == Parsed(value)
    ensures AgentInScope(Format(scope), Format(mask), TrimSpace(text)) == InSubnet(scope, mask, value)
  {
    AddressText(scope);
    AddressText(mask);
    assert TrimSpace(TrimSpace(text)) == TrimSpace(text);
  }

  lemma ParsedSubnetsAgree(subnetText: GoString, gatewayText: GoString)
    requires ParseCIDR(TrimSpace(subnetText)).Parsed?
    ensures BackendGateway(subnetText, gatewayText) == AgentGateway(subnetText, gatewayText)
  {
    BackendParsesWhatAgentParses(subnetText);
    AgentSubnetParsed(subnetText);
    var gateway := ParseIPv4(TrimSpace(gatewayText));
    if gateway.Parsed? {
      var s := ParseCIDR(TrimSpace(subnetText)).value;
      AgentReadsBack(s.ip, CIDRMask(s.prefix), gatewayText, gateway.value);
    }
  }

  lemma UnparsedSubnetVerdict(subnetText: GoString, gatewayText: GoString)
    requires ParseCIDR(TrimSpace(subnetText)).Malformed?
    ensures AgentGateway(subnetText, gatewayText) ==
            if TrimSpace(gatewayText) == "" then NoGateway
            else if ParseIPv4(TrimSpace(gatewayText)).Malformed? then NotAnAddress else BadSubnet
  {
    assert TrimSpace(TrimSpace(subnetText)) == TrimSpace(subnetText);
  }

  lemma NoTextIsNoAddress()
    ensures ParseIPv4("").Malformed?
  {
    assert Split("", '.') == [""] && ParseOctet("").Malformed?;
  }

  /** The two checks give one verdict exactly when the gateway is no address, or the backend cannot parse
      the subnet, or its text is strict. */
  lemma GatewayChecksAgree(subnetText: GoString, gatewayText: GoString)
    ensures BackendGateway(subnetText, gatewayText) == AgentGateway(subnetText, gatewayText) <==>
            || ParseIPv4(TrimSpace(gatewayText)).Malformed?
            || BackendSubnet(subnetText).Malformed?
            || Strict(subnetText)
  {
    NoTextIsNoAddress();
    if ParseCIDR(TrimSpace(subnetText)).Parsed? {
      ParsedSubnetsAgree(subnetText, gatewayText);
      ParsedIsStrict(subnetText);
    } else {
      UnparsedSubnetVerdict(subnetText, gatewayText);
      if BackendSubnet(subnetText).Parsed? {
        AgentParsesExactly(subnetText);
      }
    }
  }

  lemma InSubnetExactly(s: Subnet, value: Ip)
    requires s.prefix <= 32
    ensures var network := Uint32(s.ip) / BlockSize(s.prefix) * BlockSize(s.prefix);
            InSubnet(s.ip, CIDRMask(s.prefix), value) == Accepted <==>
              network < Uint32(value) < network + BlockSize(s.prefix) - 1
  {
    NetworkOf(s.ip, s.prefix);
    SameNetwork(s.ip, value, s.prefix);
    BroadcastOf(s.ip, s.prefix);
  }

  /** Which of its answers the comparison gives: another block, its first or last address, or one between. */
  lemma VerdictExactly(s: Subnet, value: Ip)
    requires s.prefix <= 32
    ensures var network, size := Uint32(s.ip) / BlockSize(s.prefix) * BlockSize(s.prefix), BlockSize(s.prefix);
            InSubnet(s.ip, CIDRMask(s.prefix), value) ==
            if !(network <= Uint32(value) < network + size) then OutsideSubnet
            else if Uint32(value) == network || Uint32(value) == network + size - 1 then ReservedAddress else Accepted
  {
    NetworkOf(s.ip, s.prefix);
    SameNetwork(s.ip, value, s.prefix);
    BroadcastOf(s.ip, s.prefix);
  }

  /** The backend's answers, in the order in which it looks for what is wrong. */
  lemma GatewayVerdict(s: Subnet, gatewayText: GoString, subnetText: GoString)
    requires s.prefix <= 32
    ensures BackendGateway(SubnetText(s), gatewayText) ==
            (if Blank(gatewayText) then NoGateway
             else if ParseIPv4(TrimSpace(gatewayText)).Malformed? then NotAnAddress
             else InSubnet(s.ip, CIDRMask(s.prefix), ParseIPv4(TrimSpace(gatewayText)).value))
    ensures BackendSubnet(subnetText).Malformed? ==>
              BackendGateway(subnetText, gatewayText) ==
              (if Blank(gatewayText) then NoGateway
               else if ParseIPv4(TrimSpace(gatewayText)).Malformed? then NotAnAddress else BadSubnet)
  {
    BlankTrims(gatewayText);
    ParseOfSubnetText(s);
    BackendParsesWhatAgentParses(SubnetText(s));
  }

  lemma GatewayTextChecked(s: Subnet, gateway: Ip)
    requires s.prefix <= 32
    ensures BackendGateway(SubnetText(s), Format(gateway)) == InSubnet(s.ip, CIDRMask(s.prefix), gateway)
  {
    ParseOfSubnetText(s);
    BackendParsesWhatAgentParses(SubnetText(s));
    AddressText(gateway);
  }

  /** What both accept for a.b.c.d/p: exactly the addresses strictly between the network and the
      broadcast address, hence none for p of 31 or 32. */
  lemma GatewayAcceptedExactly(s: Subnet, gateway: Ip)
    requires s.prefix <= 32
    ensures var network := Uint32(s.ip) / BlockSize(s.prefix) * BlockSize(s.prefix);
            BackendGateway(SubnetText(s), Format(gateway)) == Accepted <==>
              network < Uint32(gateway) < network + BlockSize(s.prefix) - 1
    ensures AgentGateway(SubnetText(s), Format(gateway)) == BackendGateway(SubnetText(s), Format(gateway))
    ensures s.prefix >= 31 ==> BackendGateway(SubnetText(s), Format(gateway)) != Accepted
  {
    ParseOfSubnetText(s);
    ParsedSubnetsAgree(SubnetText(s), Format(gateway));
    GatewayTextChecked(s, gateway);
    InSubnetExactly(s, gateway);
    if s.prefix >= 31 {
      NoRoomInTinyBlocks(s, gateway);
    }
  }

  lemma NoRoomInTinyBlocks(s: Subnet, value: Ip)
    requires 31 <= s.prefix <= 32
    ensures InSubnet(s.ip, CIDRMask(s.prefix), value) != Accepted
  {
    InSubnetExactly(s, value);
    assert BlockSize(s.prefix) <= 2;
  }

  // ----- ranges and contiguous masks

  /** The agent's `validateIPv4RangeInScope` on parsed addresses. */
  predicate RangeInScope(scope: Ip, mask: Ip, start: Ip, end: Ip) {
    && Masked(start, mask) == Masked(scope, mask)
    && Masked(end, mask) == Masked(scope, mask)
    && Uint32(start) <= Uint32(end)
  }

  predicate AgentRangeInScope(scopeText: GoString, maskText: GoString, startText: GoString, endText: GoString) {
    var scope, mask := ParseIPv4(TrimSpace(scopeText)), ParseIPv4(TrimSpace(maskText));
    var start, end := ParseIPv4(TrimSpace(startText)), ParseIPv4(TrimSpace(endText));
    && scope.Parsed? && mask.Parsed? && start.Parsed? && end.Parsed?
    && RangeInScope(scope.value, mask.value, start.value, end.value)
  }

  /** A range accepted under the mask of a prefix lies wholly in the subnet. */
  lemma RangeIsInside(scope: Ip, prefix: nat, start: Ip, end: Ip, v: Ip)
    requires prefix <= 32 && RangeInScope(scope, CIDRMask(prefix), start, end)
    requires Uint32(start) <= Uint32(v) <= Uint32(end)
    ensures Masked(v, CIDRMask(prefix)) == Masked(scope, CIDRMask(prefix))
  {
    SameNetwork(scope, start, prefix);
    SameNetwork(scope, end, prefix);
    SameNetwork(scope, v, prefix);
  }

  lemma RangeInBlock(scope: Ip, prefix: nat, start: Ip, end: Ip)
    requires prefix <= 32
    ensures var network := Uint32(scope) / BlockSize(prefix) * BlockSize(prefix);
            RangeInScope(scope, CIDRMask(prefix), start, end) <==> network <= Uint32(start) <= Uint32(end) < network + BlockSize(prefix)
  {
    InBlock(scope, prefix, start);
    InBlock(scope, prefix, end);
  }

  lemma InBlock(scope: Ip, prefix: nat, v: Ip)
    requires prefix <= 32
    ensures var network := Uint32(scope) / BlockSize(prefix) * BlockSize(prefix);
            Masked(v, CIDRMask(prefix)) == Masked(scope, CIDRMask(prefix)) <==> network <= Uint32(v) < network + BlockSize(prefix)
  {
    SameNetwork(scope, v, prefix);
    NetworkOf(scope, prefix);
  }

  /** The agent accepts exactly a start and an end that are addresses of the subnet, the start not above
      the end. */
  lemma RangeAcceptedExactly(subnetText: GoString, startText: GoString, endText: GoString)
    requires AgentSubnet(subnetText).Parsed?
    ensures var s := ParseCIDR(TrimSpace(subnetText)).value;
            var network := Uint32(s.ip) / BlockSize(s.prefix) * BlockSize(s.prefix);
            var start, end := ParseIPv4(TrimSpace(startText)), ParseIPv4(TrimSpace(endText));
            AgentRangeInScope(AgentSubnet(subnetText).value.0, AgentSubnet(subnetText).value.1, startText, endText) <==>
              && start.Parsed? && end.Parsed?
              && network <= Uint32(start.value) <= Uint32(end.value) < network + BlockSize(s.prefix)
  {
    var s := ParseCIDR(TrimSpace(subnetText)).value;
    AddressText(s.ip);
    AddressText(CIDRMask(s.prefix));
    var start, end := ParseIPv4(TrimSpace(startText)), ParseIPv4(TrimSpace(endText));
    if start.Parsed? && end.Parsed? {
      RangeInBlock(s.ip, s.prefix, start.value, end.value);
    }
  }

  /** An accepted range lies wholly in the scope's subnet, whose address and mask are the texts the agent
      makes of the subnet's own. */
  lemma AcceptedRangeIsInside(subnetText: GoString, startText: GoString, endText: GoString, v: Ip)
    requires AgentSubnet(subnetText).Parsed?
    requires AgentRangeInScope(AgentSubnet(subnetText).value.0, AgentSubnet(subnetText).value.1, startText, endText)
    requires Uint32(ParseIPv4(TrimSpace(startText)).value) <= Uint32(v) <= Uint32(ParseIPv4(TrimSpace(endText)).value)
    ensures var s := ParseCIDR(TrimSpace(subnetText)).value;
            var network := Uint32(s.ip) / BlockSize(s.prefix) * BlockSize(s.prefix);
            network <= Uint32(v) < network + BlockSize(s.prefix)
  {
    RangeAcceptedExactly(subnetText, startText, endText);
  }

  function OctetAt(ip: Ip, i: nat): Octet
    requires i < 4
  {
    if i == 0 then ip.a else if i == 1 then ip.b else if i == 2 then ip.c else ip.d
  }

  /** Bit `k` of a mask, the most significant first. */
  predicate MaskBit(mask: Ip, k: nat)
    requires k < 32
  {
    Bit(OctetAt(mask, k / 8), 7 - k % 8)
  }

  predicate LeadingOnes(mask: Ip, prefix: nat) {
    forall k | 0 <= k < 32 :: MaskBit(mask, k) <==> k < prefix
  }

  lemma OctetBits(ones: int, i: nat)
    requires i < 8
    ensures Bit(MaskOctet(ones), i) <==> 7 - i < ones
  {
    if 0 < ones < 8 {
      MaskOctetValue(ones);
      HighBits(8, 8 - ones, i);
      assert Pow2(8) == 256;
    } else {
      HighBits(8, 0, i);
      ZeroBits(i);
    }
  }

  lemma {:induction false} ZeroBits(i: nat)
    ensures !Bit(0, i)
  {
    if i > 0 { ZeroBits(i - 1); }
  }

  lemma {:induction false} HighBits(width: nat, low: nat, i: nat)
    requires low <= width && i < width
    ensures Pow2(low) <= Pow2(width)
    ensures Bit(Pow2(width) - Pow2(low), i) <==> i >= low
  {
    if low > 0 && i > 0 {
      HighBits(width - 1, low - 1, i - 1);
    } else if i > 0 {
      HighBits(width - 1, 0, i - 1);
    } else if low > 0 {
      PowMonotone(low, width);
    }
  }

  lemma {:induction false} PowMonotone(m: nat, n: nat)
    requires m <= n
    ensures Pow2(m) <= Pow2(n)
  {
    if m < n { PowMonotone(m, n - 1); }
  }

  lemma {:induction false} SameBits(x: nat, y: nat, width: nat)
    requires x < Pow2(width) && y < Pow2(width)
    requires forall i | 0 <= i < width :: Bit(x, i) <==> Bit(y, i)
    ensures x == y
  {
    if width > 0 {
      forall i | 0 <= i < width - 1 ensures Bit(x / 2, i) <==> Bit(y / 2, i) {
        assert Bit(x, i + 1) <==> Bit(y, i + 1);
      }
      assert Bit(x, 0) <==> Bit(y, 0);
      SameBits(x / 2, y / 2, width - 1);
    }
  }

  /** A mask has p leading ones and no others exactly when it is the mask of the prefix p. */
  lemma LeadingOnesAreCIDRMasks(mask: Ip, prefix: nat)
    requires prefix <= 32
    ensures LeadingOnes(mask, prefix) <==> mask == CIDRMask(prefix)
  {
    var m := CIDRMask(prefix);
    forall k | 0 <= k < 32 ensures MaskBit(m, k) <==> k < prefix {
      OctetBits(prefix - 8 * (k / 8), 7 - k % 8);
    }
    if LeadingOnes(mask, prefix) {
      forall i | 0 <= i < 4 ensures OctetAt(mask, i) == OctetAt(m, i) {
        forall j | 0 <= j < 8 ensures Bit(OctetAt(mask, i), j) <==> Bit(OctetAt(m, i), j) {
          var k := 8 * i + 7 - j;
          assert MaskBit(mask, k) <==> MaskBit(m, k);
        }
        assert Pow2(8) == 256;
        SameBits(OctetAt(mask, i), OctetAt(m, i), 8);
      }
      assert OctetAt(mask, 0) == OctetAt(m, 0) && OctetAt(mask, 1) == OctetAt(m, 1);
      assert OctetAt(mask, 2) == OctetAt(m, 2) && OctetAt(mask, 3) == OctetAt(m, 3);
    }
  }

  /** The loop of the agent's PowerShell `Convert-MaskToPrefix`; `Malformed` stands for the throw. It
      succeeds exactly on the masks that come from a prefix, and gives that prefix back. */
  method ConvertMaskToPrefix(mask: Ip) returns (prefix: Parsed<nat>)
    ensures prefix.Parsed? ==> prefix.value <= 32
    ensures forall p | 0 <= p <= 32 :: prefix == Parsed(p) <==> mask == CIDRMask(p)
  {
    var count, seenZero := 0, false;
    for i := 0 to 4
      invariant count <= 8 * i && (if seenZero then count < 8 * i else count == 8 * i)
      invariant forall k | 0 <= k < 8 * i :: MaskBit(mask, k) <==> k < count
    {
      var octet := OctetAt(mask, i);
      for j := 0 to 8
        invariant count <= 8 * i + j && (if seenZero then count < 8 * i + j else count == 8 * i + j)
        invariant forall k | 0 <= k < 8 * i + j :: MaskBit(mask, k) <==> k < count
      {
        assert MaskBit(mask, 8 * i + j) == Bit(octet, 7 - j);
        if Bit(octet, 7 - j) {
          if seenZero {
            OneAfterZero(mask, count, 8 * i + j);
            return Malformed;
          }
          count := count + 1;
        } else {
          seenZero := true;
        }
      }
    }
    prefix := Parsed(count);
    forall p | 0 <= p <= 32 ensures count == p <==> mask == CIDRMask(p) {
      LeadingOnesAreCIDRMasks(mask, p);
      OnlyOnePrefix(mask, count, p);
    }
  }

  lemma OneAfterZero(mask: Ip, zero: nat, one: nat)
    requires zero < one < 32 && !MaskBit(mask, zero) && MaskBit(mask, one)
    ensures forall p | 0 <= p <= 32 :: mask != CIDRMask(p)
  {
    forall p | 0 <= p <= 32 ensures mask != CIDRMask(p) {
      LeadingOnesAreCIDRMasks(mask, p);
    }
  }

  lemma OnlyOnePrefix(mask: Ip, p: nat, q: nat)
    requires p <= 32 && q <= 32 && LeadingOnes(mask, p)
    ensures LeadingOnes(mask, q) <==> p == q
  {
    if p < q {
      assert !MaskBit(mask, p);
    } else if q < p {
      assert MaskBit(mask, q);
    }
  }

  /** The agent's `ipv4MaskPrefix`: how many ones lead the mask, or none if others follow a zero. */
  ghost function Ipv4MaskPrefix(maskText: GoString): GoString {
    var mask := ParseIPv4(TrimSpace(maskText));
    if mask.Malformed? then ""
    else if exists p: nat :: p <= 32 && mask.value == CIDRMask(p)
    then (var p: nat :| p <= 32 && mask.value == CIDRMask(p); OctetText(p))
    else "0"
  }

  lemma MaskPrefixInverts(prefix: nat)
    requires prefix <= 32
    ensures Ipv4MaskPrefix(Format(CIDRMask(prefix))) == OctetText(prefix)
  {
    AddressText(CIDRMask(prefix));
    LeadingOnesAreCIDRMasks(CIDRMask(prefix), prefix);
    forall p: nat | p <= 32 && CIDRMask(prefix) == CIDRMask(p) ensures p == prefix {
      LeadingOnesAreCIDRMasks(CIDRMask(prefix), p);
      OnlyOnePrefix(CIDRMask(prefix), prefix, p);
    }
  }

  /** Any other mask has a prefix of zero, and what is no mask has none. */
  lemma OtherMasks(mask: Ip, maskText: GoString)
    ensures (forall p | 0 <= p <= 32 :: mask != CIDRMask(p)) ==> Ipv4MaskPrefix(Format(mask)) == "0"
    ensures ParseIPv4(TrimSpace(maskText)).Malformed? ==> Ipv4MaskPrefix(maskText) == ""
  {
    AddressText(mask);
  }

  ghost function NormalizedSubnet(address: GoString, mask: GoString): GoString {
    address + "/" + Ipv4MaskPrefix(mask)
  }

  /** The subnet text the agent puts together from address and mask stands for the subnet it parsed. */
  lemma NormalizedSubnetIsTheSame(text: GoString, address: GoString, mask: GoString)
    requires AgentSubnet(text) == Parsed((address, mask))
    ensures AgentSubnet(NormalizedSubnet(address, mask)) == AgentSubnet(text)
  {
    var s := ParseCIDR(TrimSpace(text)).value;
    var ip, digits := ParseCIDRParts(TrimSpace(text));
    assert s.prefix <= 32;
    MaskPrefixInverts(s.prefix);
    ParseOfSubnetText(s);
    AgentSubnetParsed(SubnetText(s));
    AgentTrimsSubnet(SubnetText(s));
  }

  lemma AgentTrimsSubnet(text: GoString)
    requires ParseCIDR(TrimSpace(text)).Parsed?
    ensures AgentSubnet(text) == AgentSubnet(TrimSpace(text))
  {
    assert TrimSpace(TrimSpace(text)) == TrimSpace(text);
  }

  // ----- ranges under masks that are not contiguous

  /** The address with one octet, the others zero. */
  function InPlace(o: Octet, i: nat): Ip
    requires i < 4
  {
    if i == 0 then Ip(o, 0, 0, 0) else if i == 1 then Ip(0, o, 0, 0) else if i == 2 then Ip(0, 0, o, 0) else Ip(0, 0, 0, o)
  }

  lemma BitOctet(j: nat) returns (o: Octet)
    requires j < 8
    ensures o == Pow2(j)
  {
    PowMonotone(j, 7);
    assert Pow2(7) == 128;
    o := Pow2(j);
  }

  lemma {:induction false} AndOfZero(y: nat, width: nat)
    ensures BitAnd(0, y, width) == 0
  {
    if width > 0 { AndOfZero(y / 2, width - 1); }
  }

  lemma {:induction false} AndOfOneBit(i: nat, y: nat, width: nat)
    requires i < width
    ensures BitAnd(Pow2(i), y, width) == if Bit(y, i) then Pow2(i) else 0
  {
    if i == 0 {
      AndOfZero(y / 2, width - 1);
    } else {
      AndOfOneBit(i - 1, y / 2, width - 1);
    }
  }

  const ZERO := Ip(0, 0, 0, 0)

  lemma MaskedInPlace(mask: Ip, i: nat, j: nat, o: Octet)
    requires i < 4 && j < 8 && o == Pow2(j)
    ensures Masked(InPlace(o, i), mask) == if Bit(OctetAt(mask, i), j) then InPlace(o, i) else ZERO
    ensures Masked(ZERO, mask) == ZERO
  {
    AndOfZero(mask.a, 8);
    AndOfZero(mask.b, 8);
    AndOfZero(mask.c, 8);
    AndOfZero(mask.d, 8);
    AndOfOneBit(j, OctetAt(mask, i), 8);
  }

  lemma GapInMask(mask: Ip) returns (zero: nat, one: nat)
    requires forall p | 0 <= p <= 32 :: mask != CIDRMask(p)
    ensures zero < one < 32 && !MaskBit(mask, zero) && MaskBit(mask, one)
  {
    zero := 0;
    while zero < 32 && MaskBit(mask, zero)
      invariant zero <= 32 && forall k | 0 <= k < zero :: MaskBit(mask, k)
    {
      zero := zero + 1;
    }
    LeadingOnesAreCIDRMasks(mask, zero);
    one :| 0 <= one < 32 && !(MaskBit(mask, one) <==> one < zero);
  }

  /** An address of an accepted range is in the subnet. */
  predicate Inside(mask: Ip, scope: Ip, start: Ip, end: Ip, v: Ip) {
    RangeInScope(scope, mask, start, end) && Uint32(start) <= Uint32(v) <= Uint32(end) ==>
      Masked(v, mask) == Masked(scope, mask)
  }

  lemma OrderOfBits(i: nat, o: Octet, k: nat, u: Octet)
    requires i < 4 && k < 4 && o > 0 && u > 0 && (i < k || (i == k && u < o))
    ensures 0 < Uint32(InPlace(u, k)) <= Uint32(InPlace(o, i))
  {
  }

  lemma BitsLetAddressesOut(mask: Ip, i: nat, j: nat, k: nat, l: nat)
    requires i < 4 && k < 4 && j < 8 && l < 8 && (i < k || (i == k && l < j))
    requires !Bit(OctetAt(mask, i), j) && Bit(OctetAt(mask, k), l)
    ensures exists end, v :: !Inside(mask, ZERO, ZERO, end, v)
  {
    var o := BitOctet(j);
    var u := BitOctet(l);
    MaskedInPlace(mask, i, j, o);
    MaskedInPlace(mask, k, l, u);
    if i == k {
      PowMonotone(l + 1, j);
    }
    OrderOfBits(i, o, k, u);
    assert InPlace(u, k) != ZERO;
    assert !Inside(mask, ZERO, ZERO, InPlace(o, i), InPlace(u, k));
  }

  lemma GapLetsAddressesOut(mask: Ip, zero: nat, one: nat)
    requires zero < one < 32 && !MaskBit(mask, zero) && MaskBit(mask, one)
    ensures exists end, v :: !Inside(mask, ZERO, ZERO, end, v)
  {
    BitsLetAddressesOut(mask, zero / 8, 7 - zero % 8, one / 8, 7 - one % 8);
  }

  /** Every accepted range lies wholly in its subnet exactly under the masks that come from a prefix. */
  lemma RangesAreInsideIffContiguous(mask: Ip)
    ensures (forall scope, start, end, v :: Inside(mask, scope, start, end, v)) <==>
            exists p :: 0 <= p <= 32 && mask == CIDRMask(p)
  {
    if p :| 0 <= p <= 32 && mask == CIDRMask(p) {
      forall scope, start, end, v ensures Inside(mask, scope, start, end, v) {
        if RangeInScope(scope, mask, start, end) && Uint32(start) <= Uint32(v) <= Uint32(end) {
          RangeIsInside(scope, p, start, end, v);
        }
      }
    } else {
      var zero, one := GapInMask(mask);
      GapLetsAddressesOut(mask, zero, one);
    }
  }
}
