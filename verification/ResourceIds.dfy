/** Resource identifiers: each part in unpadded base64url (section 5 of RFC 4648), joined by dots.
    The decoder is Go's: it skips line breaks and does not look at the unused bits of the last digit. */
module ResourceIds {
  import opened Text

  datatype Decoded<+T> = Invalid | Decoded(value: T)

  function Digit(v: nat): (c: Byte)
    requires v < 64
    ensures c != '.' && !IsLineBreak(c)
  {
    if v < 26 then 'A' + v as char
    else if v < 52 then 'a' + (v - 26) as char
    else if v < 62 then '0' + (v - 52) as char
    else if v == 62 then '-' else '_'
  }

  function DigitValue(c: Byte): (d: Decoded<nat>)
    ensures d.Decoded? ==> d.value < 64
  {
    if 'A' <= c <= 'Z' then Decoded((c - 'A') as int)
    else if 'a' <= c <= 'z' then Decoded((c - 'a') as int + 26)
    else if '0' <= c <= '9' then Decoded((c - '0') as int + 52)
    else if c == '-' then Decoded(62)
    else if c == '_' then Decoded(63)
    else Invalid
  }

  lemma DigitsRoundTrip(v: nat, c: Byte)
    ensures v < 64 ==> DigitValue(Digit(v)) == Decoded(v)
    ensures DigitValue(c).Decoded? ==> Digit(DigitValue(c).value) == c
  {
  }

  /** The alphabet of table 2 of RFC 4648: upper-case letters, lower-case ones, digits, and two more. */
  lemma DigitsAreTheTable(v: nat)
    requires v < 63
    ensures Digit(0) == 'A' && Digit(25) == 'Z' && Digit(26) == 'a' && Digit(51) == 'z' && Digit(52) == '0' && Digit(61) == '9'
    ensures Digit(62) == '-' && Digit(63) == '_'
    ensures v !in {25, 51, 61, 62} ==> Digit(v + 1) as int == Digit(v) as int + 1
  {
  }

  predicate IsLineBreak(c: char) {
    c == '\n' || c == '\r'
  }

  /** The digits of a group of one to three bytes: one more digit than bytes. */
  function GroupDigits(b: seq<nat>): (v: seq<nat>)
    requires 1 <= |b| <= 3 && forall i :: 0 <= i < |b| ==> b[i] < 256
    ensures |v| == |b| + 1 && forall i :: 0 <= i < |v| ==> v[i] < 64
  {
    if |b| == 1 then [b[0] / 4, b[0] % 4 * 16]
    else if |b| == 2 then [b[0] / 4, b[0] % 4 * 16 + b[1] / 16, b[1] % 16 * 4]
    else [b[0] / 4, b[0] % 4 * 16 + b[1] / 16, b[1] % 16 * 4 + b[2] / 64, b[2] % 64]
  }

  function GroupBytes(v: seq<nat>): (b: seq<nat>)
    requires 2 <= |v| <= 4 && forall i :: 0 <= i < |v| ==> v[i] < 64
    ensures |b| == |v| - 1 && forall i :: 0 <= i < |b| ==> b[i] < 256
  {
    if |v| == 2 then [v[0] * 4 + v[1] / 16]
    else if |v| == 3 then [v[0] * 4 + v[1] / 16, v[1] % 16 * 16 + v[2] / 4]
    else [v[0] * 4 + v[1] / 16, v[1] % 16 * 16 + v[2] / 4, v[2] % 4 * 64 + v[3]]
  }

  /** The bits of the last digit that no byte of the group uses. */
  function UnusedBits(v: seq<nat>): nat
    requires 2 <= |v| <= 4
  {
    if |v| == 2 then v[1] % 16 else if |v| == 3 then v[2] % 4 else 0
  }

  /** The digits write the bytes' number, the first byte the highest, with zeros for the bits missing. */
  lemma GroupIsOneNumber(b: seq<nat>)
    requires 1 <= |b| <= 3 && forall i :: 0 <= i < |b| ==> b[i] < 256
    ensures var v := GroupDigits(b);
            if |b| == 1 then v[0] * 64 + v[1] == b[0] * 16
            else if |b| == 2 then (v[0] * 64 + v[1]) * 64 + v[2] == (b[0] * 256 + b[1]) * 4
            else ((v[0] * 64 + v[1]) * 64 + v[2]) * 64 + v[3] == (b[0] * 256 + b[1]) * 256 + b[2]
  {
  }

  lemma GroupRoundTrip(b: seq<nat>)
    requires 1 <= |b| <= 3 && forall i :: 0 <= i < |b| ==> b[i] < 256
    ensures GroupBytes(GroupDigits(b)) == b
  {
    var v := GroupDigits(b);
    assert v[1] / 16 == b[0] % 4;
    if |b| > 1 {
      assert v[1] % 16 == b[1] / 16 && v[2] / 4 == b[1] % 16;
    }
    if |b| > 2 {
      assert v[2] % 4 == b[2] / 64;
    }
  }

  /** A number put together from high and low bits, taken apart again. */
  lemma JoinedBits(x: nat, y: nat, size: nat)
    requires y < size && size in {4, 16, 64}
    ensures (x * size + y) / size == x && (x * size + y) % size == y
  {
  }

  lemma GroupDigitsOfBytes(v: seq<nat>)
    requires 2 <= |v| <= 4 && forall i :: 0 <= i < |v| ==> v[i] < 64
    ensures GroupDigits(GroupBytes(v)) == v <==> UnusedBits(v) == 0
  {
    JoinedBits(v[0], v[1] / 16, 4);
    if |v| > 2 {
      JoinedBits(v[1] % 16, v[2] / 4, 16);
    }
    if |v| > 3 {
      JoinedBits(v[2] % 4, v[3], 64);
    }
  }

  function ByteValues(s: GoString): (b: seq<nat>)
    ensures |b| == |s| && forall i :: 0 <= i < |s| ==> b[i] == s[i] as int && b[i] < 256
  {
    seq(|s|, i requires 0 <= i < |s| => s[i] as int)
  }

  function BytesOf(b: seq<nat>): (s: GoString)
    requires forall i :: 0 <= i < |b| ==> b[i] < 256
    ensures |s| == |b| && forall i :: 0 <= i < |s| ==> s[i] as int == b[i]
  {
    seq(|b|, i requires 0 <= i < |b| => b[i] as char)
  }

  function Digits(v: seq<nat>): (s: GoString)
    requires forall i :: 0 <= i < |v| ==> v[i] < 64
    ensures |s| == |v| && forall i :: 0 <= i < |s| ==> s[i] == Digit(v[i])
  {
    seq(|v|, i requires 0 <= i < |v| => Digit(v[i]))
  }

  function DigitValues(s: GoString): (d: Decoded<seq<nat>>)
    ensures d.Decoded? ==> |d.value| == |s| && forall i :: 0 <= i < |s| ==> DigitValue(s[i]) == Decoded(d.value[i])
    ensures d.Decoded? <==> forall i :: 0 <= i < |s| ==> DigitValue(s[i]).Decoded?
  {
    if forall i :: 0 <= i < |s| ==> DigitValue(s[i]).Decoded?
    then Decoded(seq(|s|, i requires 0 <= i < |s| => DigitValue(s[i]).value))
    else Invalid
  }

  function Encode(s: GoString): (e: GoString)
    ensures '.' !in e && forall i :: 0 <= i < |e| ==> !IsLineBreak(e[i])
    decreases |s|
  {
    if s == "" then ""
    else if |s| <= 3 then Digits(GroupDigits(ByteValues(s)))
    else Digits(GroupDigits(ByteValues(s[..3]))) + Encode(s[3..])
  }

  function WithoutLineBreaks(s: GoString): (t: GoString)
    ensures (forall i :: 0 <= i < |s| ==> !IsLineBreak(s[i])) <==> t == s
    ensures |t| <= |s|
  {
    if s == "" then ""
    else if IsLineBreak(s[0]) then WithoutLineBreaks(s[1..])
    else [s[0]] + WithoutLineBreaks(s[1..])
  }

  function DecodeGroup(s: GoString): Decoded<GoString>
    requires |s| <= 4
  {
    if |s| == 1 then Invalid
    else if s == "" then Decoded("")
    else
      var v := DigitValues(s);
      if v.Invalid? then Invalid else Decoded(BytesOf(GroupBytes(v.value)))
  }

  function DecodeDigits(s: GoString): Decoded<GoString>
    decreases |s|
  {
    if |s| <= 4 then DecodeGroup(s) else
    var head, tail := DecodeGroup(s[..4]), DecodeDigits(s[4..]);
    if head.Invalid? || tail.Invalid? then Invalid else Decoded(head.value + tail.value)
  }

  function Decode(s: GoString): Decoded<GoString> {
    DecodeDigits(WithoutLineBreaks(s))
  }

  lemma EncodedGroup(s: GoString)
    requires 1 <= |s| <= 3
    ensures var e := Digits(GroupDigits(ByteValues(s)));
            |e| == |s| + 1 && DecodeGroup(e) == Decoded(s)
  {
    var v := GroupDigits(ByteValues(s));
    forall i | 0 <= i < |v| ensures DigitValue(Digits(v)[i]) == Decoded(v[i]) {
      DigitsRoundTrip(v[i], 'A');
    }
    assert DigitValues(Digits(v)).value == v;
    GroupRoundTrip(ByteValues(s));
    assert BytesOf(ByteValues(s)) == s;
  }

  lemma {:induction false} DecodeDigitsOfEncode(s: GoString)
    ensures DecodeDigits(Encode(s)) == Decoded(s)
    decreases |s|
  {
    if 1 <= |s| <= 3 {
      EncodedGroup(s);
    } else if |s| > 3 {
      EncodedGroup(s[..3]);
      DecodeDigitsOfEncode(s[3..]);
      var head := Digits(GroupDigits(ByteValues(s[..3])));
      assert Encode(s)[..4] == head && Encode(s)[4..] == Encode(s[3..]);
      assert s == s[..3] + s[3..];
    }
  }

  /** Decoding undoes encoding for every byte string, the empty one included. */
  lemma DecodeOfEncode(s: GoString)
    ensures Decode(Encode(s)) == Decoded(s)
  {
    DecodeDigitsOfEncode(s);
  }

  /** The digits after the last full group of four. */
  function LastDigits(s: GoString): (t: GoString)
    ensures |t| < 4 && |t| % 4 == |s| % 4
  {
    if |s| < 4 then s else LastDigits(s[4..])
  }

  predicate NoStrayBits(s: GoString) {
    var t := LastDigits(s);
    |t| >= 2 && DigitValues(t).Decoded? ==> UnusedBits(DigitValues(t).value) == 0
  }

  /** No line breaks, and no bits set beyond the last byte. */
  predicate Canonical(s: GoString) {
    (forall i :: 0 <= i < |s| ==> !IsLineBreak(s[i])) && NoStrayBits(s)
  }

  lemma EncodeOfGroup(s: GoString)
    requires |s| <= 4 && DecodeGroup(s).Decoded?
    ensures var b := DecodeGroup(s).value;
            && (s != "" ==> 1 <= |b| <= 3 && |s| == |b| + 1)
            && (s == "" ==> b == "")
            && (Encode(b) == s <==> s == "" || UnusedBits(DigitValues(s).value) == 0)
            && (|s| == 4 ==> Encode(b) == s)
  {
    if s != "" {
      var v := DigitValues(s).value;
      var b := DecodeGroup(s).value;
      assert ByteValues(b) == GroupBytes(v);
      GroupDigitsOfBytes(v);
      forall i | 0 <= i < |s| ensures Digits(v)[i] == s[i] {
        DigitsRoundTrip(v[i], s[i]);
      }
      assert Digits(v) == s;
      if Encode(b) == s {
        forall i | 0 <= i < |v| ensures GroupDigits(GroupBytes(v))[i] == v[i] {
          DigitsRoundTrip(GroupDigits(GroupBytes(v))[i], s[i]);
          DigitsRoundTrip(v[i], s[i]);
          assert Encode(b)[i] == Digit(GroupDigits(GroupBytes(v))[i]);
        }
      }
    }
  }

  lemma {:induction false} EncodeOfDigits(s: GoString)
    requires DecodeDigits(s).Decoded?
    ensures Encode(DecodeDigits(s).value) == s <==> NoStrayBits(s)
    decreases |s|
  {
    if |s| <= 4 {
      EncodeOfGroup(s);
      assert |s| == 4 ==> LastDigits(s) == LastDigits(s[4..]) == "";
    } else {
      var head, tail := DecodeGroup(s[..4]), DecodeDigits(s[4..]);
      assert DecodeDigits(s) == Decoded(head.value + tail.value);
      EncodeOfGroup(s[..4]);
      EncodeOfConcat(head.value, tail.value);
      EncodeOfDigits(s[4..]);
      assert LastDigits(s) == LastDigits(s[4..]);
      SameTail(s, Encode(tail.value), 4);
    }
  }

  lemma SameTail(s: GoString, t: GoString, n: nat)
    requires n <= |s|
    ensures s[..n] + t == s <==> t == s[n..]
  {
    assert (s[..n] + t)[n..] == t;
    assert s[..n] + s[n..] == s;
  }

  lemma EncodeOfConcat(h: GoString, t: GoString)
    requires |h| == 3
    ensures Encode(h + t) == Encode(h) + Encode(t)
  {
    assert (h + t)[..3] == h && (h + t)[3..] == t;
    if t == "" {
      assert h + t == h;
    }
  }

  /** Several texts can decode to the same bytes; the encoder's own is the canonical one. */
  lemma EncodeOfDecode(s: GoString)
    requires Decode(s).Decoded?
    ensures Encode(Decode(s).value) == s <==> Canonical(s)
  {
    EncodeOfDigits(WithoutLineBreaks(s));
  }

  // ----- identifiers of several parts

  function EncodeAll(parts: seq<GoString>): (texts: seq<GoString>)
    ensures |texts| == |parts| && forall i :: 0 <= i < |parts| ==> texts[i] == Encode(parts[i])
  {
    seq(|parts|, i requires 0 <= i < |parts| => Encode(parts[i]))
  }

  function ResourceId(parts: seq<GoString>): GoString {
    Join(EncodeAll(parts), '.')
  }

  function DNSZoneID(serverId: GoString, zoneName: GoString): GoString {
    ResourceId([serverId, zoneName])
  }

  lemma ZoneIdIsNotBlank(serverId: GoString, name: GoString)
    ensures TrimSpace(DNSZoneID(serverId, name)) != ""
  {
    var texts := EncodeAll([serverId, name]);
    assert Join(texts, '.') == texts[0] + "." + texts[1] by {
      assert texts[1..] == [texts[1]];
    }
    NotBlank(DNSZoneID(serverId, name), |texts[0]|);
  }

  function DNSRecordID(serverId: GoString, zoneName: GoString, recordType: GoString, name: GoString,
                       value: GoString): GoString
  {
    ResourceId([serverId, zoneName, recordType, name, value])
  }

  function DecodeAll(texts: seq<GoString>): (d: Decoded<seq<GoString>>)
    ensures d.Decoded? <==> forall i :: 0 <= i < |texts| ==> Decode(texts[i]).Decoded?
    ensures d.Decoded? ==> |d.value| == |texts| && forall i :: 0 <= i < |texts| ==> Decode(texts[i]).value == d.value[i]
  {
    if forall i :: 0 <= i < |texts| ==> Decode(texts[i]).Decoded?
    then Decoded(seq(|texts|, i requires 0 <= i < |texts| => Decode(texts[i]).value))
    else Invalid
  }

  /** An identifier of `arity` parts, decoded. */
  function DecodeParts(id: GoString, arity: nat): Decoded<seq<GoString>> {
    if |Split(id, '.')| != arity then Invalid else DecodeAll(Split(id, '.'))
  }

  method EncodeResourceID(parts: seq<GoString>) returns (id: GoString)
    ensures id == ResourceId(parts)
  {
    var encoded: seq<GoString> := [];
    for i := 0 to |parts|
      invariant encoded == EncodeAll(parts[..i])
    {
      encoded := encoded + [Encode(parts[i])];
    }
    assert parts[..|parts|] == parts;
    id := Join(encoded, '.');
  }

  lemma DecodedInTurn(texts: seq<GoString>, values: seq<GoString>)
    requires |values| == |texts| && forall i :: 0 <= i < |texts| ==> Decode(texts[i]) == Decoded(values[i])
    ensures DecodeAll(texts) == Decoded(values)
  {
    assert values == DecodeAll(texts).value;
  }

  /** `arity` is 2 for a zone and 5 for a record. */
  method DecodeResourceID(id: GoString, arity: nat) returns (result: Decoded<seq<GoString>>)
    ensures result == DecodeParts(id, arity)
  {
    var parts := Split(id, '.');
    if |parts| != arity {
      return Invalid;
    }
    var values: seq<GoString> := [];
    for i := 0 to |parts|
      invariant |values| == i && forall j :: 0 <= j < i ==> Decode(parts[j]) == Decoded(values[j])
    {
      var value := Decode(parts[i]);
      if value.Invalid? {
        assert DecodeAll(parts).Invalid?;
        return Invalid;
      }
      values := values + [value.value];
    }
    result := Decoded(values);
    DecodedInTurn(parts, values);
  }

  lemma SplitOfResourceId(parts: seq<GoString>)
    requires parts != []
    ensures Split(ResourceId(parts), '.') == EncodeAll(parts)
  {
    SplitJoin(EncodeAll(parts), '.');
  }

  /** Every list of parts, of any bytes, comes back; and an identifier of one arity decodes at no other,
      so no record identifier is a zone identifier or the reverse. */
  lemma PartsRoundTrip(parts: seq<GoString>, arity: nat)
    requires parts != []
    ensures DecodeParts(ResourceId(parts), arity) == if arity == |parts| then Decoded(parts) else Invalid
  {
    SplitOfResourceId(parts);
    forall i | 0 <= i < |parts| ensures Decode(EncodeAll(parts)[i]) == Decoded(parts[i]) {
      DecodeOfEncode(parts[i]);
    }
    if arity == |parts| {
      assert DecodeAll(EncodeAll(parts)).value == parts;
    }
  }

  lemma ResourceIdIsInjective(parts: seq<GoString>, others: seq<GoString>)
    requires parts != [] && others != []
    ensures ResourceId(parts) == ResourceId(others) <==> parts == others
  {
    PartsRoundTrip(parts, |parts|);
    PartsRoundTrip(others, |parts|);
  }

  /** An identifier that decodes is the one the encoder gives exactly when each part's text is canonical. */
  lemma CanonicalIds(id: GoString, arity: nat)
    requires DecodeParts(id, arity).Decoded?
    ensures ResourceId(DecodeParts(id, arity).value) == id <==>
            forall i :: 0 <= i < arity ==> Canonical(Split(id, '.')[i])
  {
    var texts := Split(id, '.');
    var parts := DecodeParts(id, arity).value;
    JoinSplit(id, '.');
    SplitOfResourceId(parts);
    forall i | 0 <= i < arity ensures EncodeAll(parts)[i] == texts[i] <==> Canonical(texts[i]) {
      EncodeOfDecode(texts[i]);
    }
    if forall i :: 0 <= i < arity ==> Canonical(texts[i]) {
      assert EncodeAll(parts) == texts;
    }
  }
}
