/** What one refresh is about, and the key under which refreshes of the same thing are merged. */
module RefreshTarget {
  import opened Text

  datatype Kind = DnsZone | DhcpScope | Unknown

  datatype Target = Target(kind: Kind, serverId: GoString, zoneId: GoString, zoneName: GoString,
                           scopeId: GoString, scopeExternalId: GoString, scopeName: GoString)

  /** The name by which a target's zone or scope enters its key. */
  function ResourceName(t: Target): GoString {
    if t.kind == DnsZone then t.zoneName else t.scopeExternalId
  }

  function KindPrefix(kind: Kind): GoString {
    match kind
    case DnsZone => "dns.zone:"
    case DhcpScope => "dhcp.scope:"
    case Unknown => ""
  }

  function Key(t: Target): GoString {
    if t.kind == Unknown || t.serverId == "" || ResourceName(t) == "" then ""
    else KindPrefix(t.kind) + t.serverId + ":" + ResourceName(t)
  }

  lemma SameParts(prefix: GoString, a: GoString, x: GoString, b: GoString, y: GoString)
    requires !Contains(a, ':') && !Contains(b, ':') && prefix + a + ":" + x == prefix + b + ":" + y
    ensures a == b && x == y
  {
    var p, s, t := |prefix|, a + ":" + x, b + ":" + y;
    assert s == (prefix + a + ":" + x)[p..] == (prefix + b + ":" + y)[p..] == t;
    SplitAtSeparator(a, x, ':');
    SplitAtSeparator(b, y, ':');
    assert a == Split(s, ':')[0] == b;
    assert x == s[|a| + 1..] == y;
  }

  lemma SameKind(t: Target, u: Target)
    requires Key(t) == Key(u) != ""
    ensures t.kind == u.kind
  {
    assert Key(t)[1] == KindPrefix(t.kind)[1] && Key(u)[1] == KindPrefix(u.kind)[1];
  }

  /** Server identifiers are UUIDs; with no colon in them the key identifies kind, server and resource. */
  lemma KeyIdentifiesResource(t: Target, u: Target)
    requires Key(t) != "" && Key(u) != ""
    requires !Contains(t.serverId, ':') && !Contains(u.serverId, ':')
    ensures Key(t) == Key(u) <==>
            && t.kind == u.kind && t.serverId == u.serverId
            && (if t.kind.DnsZone? then t.zoneName == u.zoneName else t.scopeExternalId == u.scopeExternalId)
  {
    if Key(t) == Key(u) {
      SameKind(t, u);
      SameParts(KindPrefix(t.kind), t.serverId, ResourceName(t), u.serverId, ResourceName(u));
    }
  }

  /** With a colon in a server identifier two resources can share a key. */
  lemma ColonsMakeKeysAmbiguous()
    ensures exists t, u :: Key(t) == Key(u) != "" && t.serverId != u.serverId
  {
    var t := Target(DnsZone, "a:b", "", "c", "", "", "");
    var u := Target(DnsZone, "a", "", "b:c", "", "", "");
    assert Key(t) == "dns.zone:a:b:c" == Key(u);
  }
}
