/** Host names in record values: which texts `isValidCNAMEValue` accepts, and which names
    `ptrRecordFQDN` builds. */
module DnsNames {
  import opened Text

  predicate IsLabelByte(c: char) {
    'a' <= c <= 'z' || 'A' <= c <= 'Z' || '0' <= c <= '9' || c == '-'
  }

  /** Section 2.3.1 of RFC 1035 as relaxed by section 2.1 of RFC 1123. */
  predicate ValidLabel(s: GoString) {
    && 1 <= |s| <= 63
    && s[0] != '-' && s[|s| - 1] != '-'
    && forall i :: 0 <= i < |s| ==> IsLabelByte(s[i])
  }

  ghost predicate ValidLabels(labels: seq<GoString>) {
    labels != [] && forall i :: 0 <= i < |labels| ==> ValidLabel(labels[i])
  }

  /** The name of these labels, with its final dot. */
  function Absolute(labels: seq<GoString>): GoString {
    Join(labels, '.') + "."
  }

  /** What a value has to be: an absolute name of valid labels with at most 253 bytes before the final dot. */
  ghost predicate ValidHostName(value: GoString) {
    exists labels :: ValidLabels(labels) && value == Absolute(labels) && |value| <= 254
  }

  method IsValidDNSLabel(s: GoString) returns (ok: bool)
    ensures ok <==> ValidLabel(s)
  {
    if s == "" || |s| > 63 {
      return false;
    }
    for i := 0 to |s|
      invariant forall j :: 0 <= j < i ==> IsLabelByte(s[j])
      invariant i > 0 ==> s[0] != '-'
      invariant i == |s| ==> s[|s| - 1] != '-'
    {
      if !IsLabelByte(s[i]) {
        return false;
      }
      if (i == 0 || i == |s| - 1) && s[i] == '-' {
        return false;
      }
    }
    ok := true;
  }

  /** Accepted exactly when the trimmed value is such a name. */
  method IsValidCNAMEValue(text: GoString) returns (ok: bool)
    ensures ok <==> ValidHostName(TrimSpace(text))
  {
    var value := TrimSpace(text);
    if value == "" || !HasSuffix(value, ".") {
      NamesEndWithDot(value);
      return false;
    }
    var name := TrimSuffix(value, ".");
    if name == "" || |name| > 253 {
      NamesAreNotEmpty(name);
      return false;
    }
    var labels := Split(name, '.');
    OnlyLabels(name);
    for i := 0 to |labels|
      invariant forall j :: 0 <= j < i ==> ValidLabel(labels[j])
    {
      var valid := IsValidDNSLabel(labels[i]);
      if !valid {
        return false;
      }
    }
    JoinSplit(name, '.');
    assert ValidLabels(labels) && value == Absolute(labels);
    ok := true;
  }

  lemma NamesEndWithDot(value: GoString)
    ensures ValidHostName(value) ==> value != "" && HasSuffix(value, ".")
  {
    if labels :| ValidLabels(labels) && value == Absolute(labels) {
      assert value[|value| - 1..] == ".";
    }
  }

  lemma NamesAreNotEmpty(name: GoString)
    ensures ValidHostName(name + ".") ==> 1 <= |name| <= 253
  {
    if labels :| ValidLabels(labels) && name + "." == Absolute(labels) && |name + "."| <= 254 {
      assert |Join(labels, '.')| == |name|;
    }
  }

  lemma {:induction false} LabelHasNoDot(s: GoString)
    requires ValidLabel(s)
    ensures !Contains(s, '.')
  {
    IndexOfIsFirst(s, '.');
  }

  lemma AbsoluteOfLabels(labels: seq<GoString>)
    requires ValidLabels(labels)
    ensures Split(Join(labels, '.'), '.') == labels
  {
    forall i | 0 <= i < |labels| ensures !Contains(labels[i], '.') {
      LabelHasNoDot(labels[i]);
    }
    SplitJoin(labels, '.');
  }

  lemma SameBeforeDot(a: GoString, b: GoString)
    ensures a + "." == b + "." ==> a == b
  {
    if a + "." == b + "." {
      assert a == (a + ".")[..|a|] == (b + ".")[..|b|] == b;
    }
  }

  /** A name has no labels but those its dots separate. */
  lemma OnlyLabels(name: GoString)
    ensures ValidHostName(name + ".") ==> ValidLabels(Split(name, '.'))
  {
    if labels :| ValidLabels(labels) && name + "." == Absolute(labels) {
      SameBeforeDot(name, Join(labels, '.'));
      AbsoluteOfLabels(labels);
    }
  }

  /** The backend's `ptrRecordFQDN`. */
  function PtrRecordFQDN(zoneName: GoString, recordName: GoString): GoString {
    var name := TrimSpace(recordName);
    var zone := TrimDots(TrimSpace(zoneName));
    var fqdn := if name == "" || name == "@" then zone else TrimDots(name) + "." + zone;
    if HasSuffix(fqdn, ".") then fqdn else fqdn + "."
  }

  predicate Apex(recordName: GoString) {
    TrimSpace(recordName) == "" || TrimSpace(recordName) == "@"
  }

  lemma {:induction false} LabelsAtEdges(labels: seq<GoString>)
    requires ValidLabels(labels)
    ensures var s := Join(labels, '.'); s != "" && IsLabelByte(s[0]) && IsLabelByte(s[|s| - 1])
  {
    if |labels| > 1 {
      LabelsAtEdges(labels[1..]);
    }
  }

  lemma AbsoluteTrimmed(labels: seq<GoString>)
    requires ValidLabels(labels)
    ensures TrimSpace(Absolute(labels)) == Absolute(labels)
    ensures !HasSuffix(Join(labels, '.'), ".") && Join(labels, '.') != "@"
  {
    LabelsAtEdges(labels);
    var s := Join(labels, '.');
    assert Trimmed(s + ".", IsSpace);
    assert s[|s| - 1..] == [s[|s| - 1]];
  }

  /** The labels of the name that a record of a zone has. */
  function FullLabels(recordName: GoString, name: seq<GoString>, zone: seq<GoString>): seq<GoString> {
    if Apex(recordName) then zone else name + zone
  }

  lemma FQDNOfLabels(zoneName: GoString, recordName: GoString, zone: seq<GoString>, name: seq<GoString>)
    requires ValidLabels(zone) && TrimDots(TrimSpace(zoneName)) == Join(zone, '.')
    requires Apex(recordName) || (ValidLabels(name) && TrimDots(TrimSpace(recordName)) == Join(name, '.'))
    ensures PtrRecordFQDN(zoneName, recordName) == Absolute(FullLabels(recordName, name, zone))
    ensures ValidLabels(FullLabels(recordName, name, zone))
  {
    var labels := FullLabels(recordName, name, zone);
    if !Apex(recordName) {
      JoinConcat(name, zone, '.');
      assert Join(labels, '.') == TrimDots(TrimSpace(recordName)) + "." + Join(zone, '.');
    }
    AbsoluteTrimmed(labels);
  }

  /** The name built from a valid zone and record name is accepted exactly when its length fits. */
  lemma FQDNAcceptedExactly(zoneName: GoString, recordName: GoString, zone: seq<GoString>, name: seq<GoString>)
    requires ValidLabels(zone) && TrimDots(TrimSpace(zoneName)) == Join(zone, '.')
    requires Apex(recordName) || (ValidLabels(name) && TrimDots(TrimSpace(recordName)) == Join(name, '.'))
    ensures ValidHostName(TrimSpace(PtrRecordFQDN(zoneName, recordName))) <==>
            |PtrRecordFQDN(zoneName, recordName)| <= 254
  {
    FQDNOfLabels(zoneName, recordName, zone, name);
    AbsoluteTrimmed(FullLabels(recordName, name, zone));
  }
}
