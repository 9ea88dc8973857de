/** Settings held as JSON objects: removing what is empty, hiding secrets before a settings form is
    shown, and saving the form back. */
module ConfigSaveBack {
  import opened Options
  import opened Text

  datatype Json =
    | Null
    | Bool(b: bool)
    | Number(n: real)
    | String(s: GoString)
    | Array(items: seq<Json>)
    | Object(fields: map<GoString, Json>)

  type Config = map<GoString, Json>

  // ----- removing what is empty

  /** Array items are not searched further. */
  function CleanItem(v: Json): Option<Json> {
    match v
    case String(s) => if TrimSpace(s) != "" then Some(String(TrimSpace(s))) else None
    case Null => None
    case _ => Some(v)
  }

  function CleanItems(items: seq<Json>): seq<Json> {
    if items == [] then [] else
    var first := CleanItem(items[0]);
    (if first.Some? then [first.value] else []) + CleanItems(items[1..])
  }

  function Clean(v: Json): Option<Json> {
    match v
    case Null => None
    case Bool(b) => Some(v)
    case Number(n) => if n > 0.0 then Some(v) else None
    case String(s) => CleanItem(v)
    case Array(items) => if CleanItems(items) != [] then Some(Array(CleanItems(items))) else None
    case Object(fields) =>
      var nested := map k | k in fields && Clean(fields[k]).Some? :: Clean(fields[k]).value;
      if nested != map[] then Some(Object(nested)) else None
  }

  function RemoveEmpty(config: Config): Config {
    map k | k in config && Clean(config[k]).Some? :: Clean(config[k]).value
  }

  /** What is left of one item. */
  function Kept(item: Json): seq<Json> {
    if CleanItem(item).Some? then [CleanItem(item).value] else []
  }

  lemma CleanItemsCons(first: Json, rest: seq<Json>)
    ensures CleanItems([first] + rest) == Kept(first) + CleanItems(rest)
  {
    assert ([first] + rest)[1..] == rest;
  }

  lemma Regroup(a: seq<Json>, b: seq<Json>, c: seq<Json>)
    ensures a + (b + c) == (a + b) + c
  {
  }

  lemma {:induction false} CleanItemsSnoc(items: seq<Json>, last: Json)
    ensures CleanItems(items + [last]) == CleanItems(items) + Kept(last)
  {
    if items == [] {
      CleanItemsCons(last, []);
      assert [] + [last] == [last] + [];
    } else {
      var first, rest := items[0], items[1..];
      CleanItemsSnoc(rest, last);
      CleanItemsCons(first, rest);
      CleanItemsCons(first, rest + [last]);
      Regroup([first], rest, [last]);
      Regroup(Kept(first), CleanItems(rest), Kept(last));
      assert items == [first] + rest;
    }
  }

  method RemoveEmptyItems(items: seq<Json>) returns (cleaned: seq<Json>)
    ensures cleaned == CleanItems(items)
  {
    cleaned := [];
    for i := 0 to |items|
      invariant cleaned == CleanItems(items[..i])
    {
      var item := CleanItem(items[i]);
      if item.Some? {
        cleaned := cleaned + [item.value];
      }
      CleanItemsSnoc(items[..i], items[i]);
      assert items[..i + 1] == items[..i] + [items[i]];
    }
    assert items[..|items|] == items;
  }

  method RemoveEmptyConfigValues(config: Config) returns (cleaned: Config)
    ensures cleaned == RemoveEmpty(config)
    decreases Object(config)
  {
    cleaned := map[];
    var left := config.Keys;
    while left != {}
      invariant left <= config.Keys
      invariant cleaned == map k | k in config && k !in left && Clean(config[k]).Some? :: Clean(config[k]).value
      decreases |left|
    {
      var key :| key in left;
      match config[key] {
        case String(s) =>
          if TrimSpace(s) != "" {
            cleaned := cleaned[key := String(TrimSpace(s))];
          }
        case Array(items) =>
          var rest := RemoveEmptyItems(items);
          if |rest| > 0 {
            cleaned := cleaned[key := Array(rest)];
          }
        case Object(fields) =>
          var nested := RemoveEmptyConfigValues(fields);
          if |nested| > 0 {
            cleaned := cleaned[key := Object(nested)];
          }
        case Null =>
        case Number(n) =>
          if n > 0.0 {
            cleaned := cleaned[key := config[key]];
          }
        case Bool(b) =>
          cleaned := cleaned[key := config[key]];
      }
      left := left - {key};
    }
  }

  lemma {:induction false} CleanItemsTwice(items: seq<Json>)
    ensures CleanItems(CleanItems(items)) == CleanItems(items)
  {
    if items != [] {
      CleanItemsTwice(items[1..]);
      var first := CleanItem(items[0]);
      if first.Some? {
        assert CleanItem(first.value) == first;
        assert ([first.value] + CleanItems(items[1..]))[1..] == CleanItems(items[1..]);
      } else {
        assert CleanItems(items) == CleanItems(items[1..]);
      }
    }
  }

  lemma {:induction false} CleanTwice(v: Json)
    ensures Clean(v).Some? ==> Clean(Clean(v).value) == Clean(v)
  {
    match v
    case Array(items) => CleanItemsTwice(items);
    case Object(fields) =>
      var nested := RemoveEmpty(fields);
      forall k | k in nested ensures Clean(nested[k]) == Some(nested[k]) {
        CleanTwice(fields[k]);
      }
      assert RemoveEmpty(nested) == nested;
    case _ =>
  }

  /** Removing what is empty a second time removes nothing, at any depth. */
  lemma RemoveEmptyTwice(config: Config)
    ensures RemoveEmpty(RemoveEmpty(config)) == RemoveEmpty(config)
  {
    var cleaned := RemoveEmpty(config);
    forall k | k in cleaned ensures Clean(cleaned[k]) == Some(cleaned[k]) {
      CleanTwice(config[k]);
    }
  }

  lemma {:induction false} ItemsAreClean(items: seq<Json>)
    ensures forall i :: 0 <= i < |CleanItems(items)| ==> CleanItem(CleanItems(items)[i]) == Some(CleanItems(items)[i])
  {
    if items != [] {
      ItemsAreClean(items[1..]);
      var first := CleanItem(items[0]);
      assert first.Some? ==> CleanItem(first.value) == first;
    }
  }

  /** What is left: no null, blank text, number that is not positive, empty list or empty object; and of
      the items of a list, which are searched no further, no null and no blank text. */
  lemma NothingEmptyIsLeft(config: Config, key: GoString)
    requires key in RemoveEmpty(config)
    ensures match RemoveEmpty(config)[key]
            case Null => false
            case Bool(_) => config[key] == RemoveEmpty(config)[key]
            case Number(n) => n > 0.0
            case String(s) => s != "" && TrimSpace(s) == s
            case Array(items) => items != [] && forall i :: 0 <= i < |items| ==> CleanItem(items[i]) == Some(items[i])
            case Object(fields) => fields != map[] && fields == RemoveEmpty(fields)
  {
    CleanTwice(config[key]);
    if config[key].Array? {
      ItemsAreClean(config[key].items);
    }
    if config[key].Object? {
      RemoveEmptyTwice(config[key].fields);
      assert RemoveEmpty(config)[key] == Object(RemoveEmpty(config[key].fields));
    }
  }

  // ----- secrets

  /** The text under a key, trimmed; no text is the empty one. */
  function TextAt(config: Config, key: GoString): GoString {
    if key in config && config[key].String? then TrimSpace(config[key].s) else ""
  }

  function PresenceKey(name: GoString): GoString {
    var key := TrimSpace(name);
    if key == "" then "hasSecret" else "has" + ToUpper(key[..1]) + key[1..]
  }

  function RedactKey(config: Config, key: GoString): Config {
    if TextAt(config, key) == "" then config else (config - {key})[PresenceKey(key) := Bool(true)]
  }

  function Redact(config: Config, keys: seq<GoString>): Config {
    if keys == [] then config else RedactKey(Redact(config, keys[..|keys| - 1]), keys[|keys| - 1])
  }

  lemma RedactOneMore(config: Config, keys: seq<GoString>, i: nat)
    requires i < |keys|
    ensures Redact(config, keys[..i + 1]) == RedactKey(Redact(config, keys[..i]), keys[i])
  {
    assert keys[..i + 1][..i] == keys[..i];
  }

  method RedactConfigSecrets(config: Config, keys: seq<GoString>) returns (redacted: Config)
    ensures redacted == Redact(config, keys)
  {
    redacted := config;
    for i := 0 to |keys|
      invariant redacted == Redact(config, keys[..i])
    {
      RedactOneMore(config, keys, i);
      if TextAt(redacted, keys[i]) != "" {
        redacted := (redacted - {keys[i]})[PresenceKey(keys[i]) := Bool(true)];
      }
    }
    assert keys[..|keys|] == keys;
  }

  lemma RedactKeyHides(config: Config, secret: GoString, key: GoString)
    ensures key == secret ==> TextAt(RedactKey(config, secret), key) == ""
    ensures TextAt(RedactKey(config, secret), key) == "" || TextAt(RedactKey(config, secret), key) == TextAt(config, key)
  {
    if TextAt(config, secret) != "" {
      TextAfterMarker(config - {secret}, PresenceKey(secret), key);
      if key == secret {
        assert TextAt(config - {secret}, key) == "";
      }
    }
  }

  lemma TextAfterMarker(config: Config, marker: GoString, key: GoString)
    ensures TextAt(config[marker := Bool(true)], key) == if key == marker then "" else TextAt(config, key)
  {
  }

  lemma InInitOrLast(keys: seq<GoString>, key: GoString)
    requires key in keys
    ensures key in keys[..|keys| - 1] || key == keys[|keys| - 1]
  {
    var i :| 0 <= i < |keys| && keys[i] == key;
    if i < |keys| - 1 {
      assert keys[..|keys| - 1][i] == key;
    }
  }

  /** No secret's text is left, and no text changes that was not a secret's or a marker's. */
  lemma {:induction false} RedactHides(config: Config, keys: seq<GoString>, key: GoString)
    ensures key in keys ==> TextAt(Redact(config, keys), key) == ""
    ensures TextAt(Redact(config, keys), key) in {"", TextAt(config, key)}
    decreases |keys|
  {
    if keys != [] {
      RedactHides(config, keys[..|keys| - 1], key);
      RedactKeyHides(Redact(config, keys[..|keys| - 1]), keys[|keys| - 1], key);
      if key in keys {
        InInitOrLast(keys, key);
      }
    }
  }

  // ----- the LDAP settings

  datatype Sanitized = Rejected | Sanitized(config: Config)

  const PASSWORD: GoString := "bindPassword"
  const MARKER: GoString := "hasBindPassword"

  function TrimTexts(config: Config): Config {
    map k | k in config :: if config[k].String? then String(TrimSpace(config[k].s)) else config[k]
  }

  predicate IsTrue(config: Config, key: GoString) {
    key in config && config[key] == Bool(true)
  }

  /** `positive` says of which texts `ParseFloat` makes a positive number. */
  predicate IsPositive(config: Config, key: GoString, positive: GoString -> bool) {
    key in config && match config[key]
                     case Number(n) => n > 0.0
                     case String(s) => positive(TrimSpace(s))
                     case _ => false
  }

  const HOST: GoString := "host"
  const BASE_DN: GoString := "baseDN"
  const USER_FILTER: GoString := "userFilter"
  const BIND_DN: GoString := "bindDN"

  predicate HasRequired(config: Config) {
    && TextAt(config, HOST) != "" && TextAt(config, BASE_DN) != "" && TextAt(config, USER_FILTER) != ""
    && TextAt(config, BIND_DN) != "" && TextAt(config, PASSWORD) != ""
  }

  predicate OneTransport(config: Config) {
    !(IsTrue(config, "useTLS") && IsTrue(config, "startTLS"))
  }

  predicate Acceptable(config: Config, positive: GoString -> bool) {
    HasRequired(config) && OneTransport(config) && IsPositive(config, "port", positive)
  }

  const OBSOLETE: set<GoString> := {"defaultRole", "adminGroupDN"}
  const DROPPED: set<GoString> := OBSOLETE + {MARKER}

  function Prepared(config: Config): Config {
    TrimTexts(config) - DROPPED
  }

  function WithPassword(config: Config, previous: Config): Config {
    if TextAt(config, PASSWORD) == "" && TextAt(previous, PASSWORD) != ""
    then config[PASSWORD := String(TextAt(previous, PASSWORD))] else config
  }

  /** The backend's `sanitizeLDAPConfigWithPrevious`. */
  function SanitizeLDAP(config: Config, previous: Config, enabled: bool, positive: GoString -> bool): Sanitized {
    var prepared := Prepared(config);
    if !enabled then Sanitized(RemoveEmpty(prepared)) else
    var complete := WithPassword(prepared, previous);
    if Acceptable(complete, positive) then Sanitized(RemoveEmpty(complete)) else Rejected
  }

  method SanitizeLDAPConfigWithPrevious(given: Config, previous: Config, enabled: bool, positive: GoString -> bool)
    returns (result: Sanitized)
    ensures result == SanitizeLDAP(given, previous, enabled, positive)
  {
    var config := given;
    var left := given.Keys;
    while left != {}
      invariant left <= given.Keys == config.Keys
      invariant forall k :: k in left ==> config[k] == given[k]
      invariant forall k :: k in given && k !in left ==> config[k] == TrimTexts(given)[k]
      decreases |left|
    {
      var key :| key in left;
      if config[key].String? {
        config := config[key := String(TrimSpace(config[key].s))];
      }
      left := left - {key};
    }
    config := config - OBSOLETE;
    config := config - {MARKER};
    assert config == Prepared(given);
    if !enabled {
      var disabled := RemoveEmptyConfigValues(config);
      return Sanitized(disabled);
    }
    if TextAt(config, PASSWORD) == "" {
      if TextAt(previous, PASSWORD) != "" {
        config := config[PASSWORD := String(TextAt(previous, PASSWORD))];
      }
    }
    if !Acceptable(config, positive) {
      return Rejected;
    }
    var cleaned := RemoveEmptyConfigValues(config);
    result := Sanitized(cleaned);
  }

  lemma MarkerKey()
    ensures PresenceKey(PASSWORD) == MARKER && MARKER != PASSWORD
  {
    assert Trimmed(PASSWORD, IsSpace);
    assert PASSWORD[..1] == "b" && ToUpper("b") == "B";
    assert "has" + "B" + PASSWORD[1..] == MARKER;
  }

  /** What is not empty says the same after removing what is. */
  lemma CleanSaysTheSame(config: Config, key: GoString, positive: GoString -> bool)
    ensures TextAt(RemoveEmpty(config), key) == TextAt(config, key)
    ensures IsTrue(RemoveEmpty(config), key) == IsTrue(config, key)
    ensures IsPositive(config, key, positive) && (TextAt(config, key) != "" || !(key in config && config[key].String?)) ==>
              IsPositive(RemoveEmpty(config), key, positive)
  {
    if key in config && config[key].String? {
      assert TrimSpace(TrimSpace(config[key].s)) == TrimSpace(config[key].s);
    }
  }

  /** A configuration that was accepted while enabled. */
  ghost predicate WasAccepted(config: Config, positive: GoString -> bool) {
    exists given: Config, previous: Config :: SanitizeLDAP(given, previous, true, positive) == Sanitized(config)
  }

  /** No text is blank, the texts are trimmed, nothing else is empty, and the dropped keys are absent. */
  predicate Settled(config: Config) {
    RemoveEmpty(config) == config && Prepared(config) == config
  }

  lemma CleanIsSettled(config: Config)
    requires forall k :: k in DROPPED ==> k !in config
    ensures Settled(RemoveEmpty(config))
  {
    var cleaned := RemoveEmpty(config);
    RemoveEmptyTwice(config);
    forall k | k in cleaned ensures cleaned[k].String? ==> TrimSpace(cleaned[k].s) == cleaned[k].s {
      NothingEmptyIsLeft(config, k);
    }
    assert TrimTexts(cleaned) == cleaned;
  }

  lemma CleanKeepsTransport(config: Config, positive: GoString -> bool)
    ensures OneTransport(RemoveEmpty(config)) <==> OneTransport(config)
  {
    CleanSaysTheSame(config, "useTLS", positive);
    CleanSaysTheSame(config, "startTLS", positive);
  }

  lemma CleanIsAcceptable(config: Config, positive: GoString -> bool)
    requires Acceptable(config, positive) && !positive("")
    ensures Acceptable(RemoveEmpty(config), positive)
  {
    CleanSaysTheSame(config, HOST, positive);
    CleanSaysTheSame(config, BASE_DN, positive);
    CleanSaysTheSame(config, USER_FILTER, positive);
    CleanSaysTheSame(config, BIND_DN, positive);
    CleanSaysTheSame(config, PASSWORD, positive);
    CleanKeepsTransport(config, positive);
    CleanSaysTheSame(config, "port", positive);
  }

  lemma PasswordIsNotDropped()
    ensures PASSWORD !in DROPPED
  {
    assert |PASSWORD| == 12 && |MARKER| == 15 && |"defaultRole"| == 11;
    assert |"adminGroupDN"| == 12 && PASSWORD[0] != "adminGroupDN"[0];
  }

  lemma AcceptedIsSettled(given: Config, previous: Config, config: Config, positive: GoString -> bool)
    requires SanitizeLDAP(given, previous, true, positive) == Sanitized(config) && !positive("")
    ensures Settled(config) && Acceptable(config, positive)
  {
    PasswordIsNotDropped();
    var complete := WithPassword(Prepared(given), previous);
    CleanIsSettled(complete);
    CleanIsAcceptable(complete, positive);
  }

  lemma RedactOne(config: Config, key: GoString)
    ensures Redact(config, [key]) == RedactKey(config, key)
  {
    assert [key][..0] == [];
  }

  /** Redacting a settled configuration and preparing the form that comes back leaves all but the password. */
  lemma RedactedForm(config: Config)
    requires Settled(config) && TextAt(config, PASSWORD) != ""
    ensures PASSWORD !in Redact(config, [PASSWORD]) && IsTrue(Redact(config, [PASSWORD]), MARKER)
    ensures Prepared(Redact(config, [PASSWORD])) == config - {PASSWORD} && config[PASSWORD] == String(TextAt(config, PASSWORD))
  {
    MarkerKey();
    PasswordIsNotDropped();
    RedactOne(config, PASSWORD);
    PrepareMarked(config);
    assert config[PASSWORD] == Prepared(config)[PASSWORD] == TrimTexts(config)[PASSWORD];
  }

  lemma PrepareMarked(config: Config)
    requires Prepared(config) == config
    ensures Prepared((config - {PASSWORD})[MARKER := Bool(true)]) == config - {PASSWORD}
  {
    assert forall k :: k in config ==> k in Prepared(config) && k !in DROPPED && TrimTexts(config)[k] == config[k];
  }

  lemma PasswordComesBack(config: Config)
    requires PASSWORD in config && config[PASSWORD] == String(TextAt(config, PASSWORD)) && TextAt(config, PASSWORD) != ""
    ensures WithPassword(config - {PASSWORD}, config) == config
  {
  }

  /** Saving back the redacted form of an accepted configuration gives that configuration, its password
      included; and the form does not show the password. */
  lemma SaveBackFixedPoint(config: Config, positive: GoString -> bool)
    requires WasAccepted(config, positive) && !positive("")
    ensures SanitizeLDAP(Redact(config, [PASSWORD]), config, true, positive) == Sanitized(config)
    ensures PASSWORD !in Redact(config, [PASSWORD]) && IsTrue(Redact(config, [PASSWORD]), MARKER)
  {
    var given, previous :| SanitizeLDAP(given, previous, true, positive) == Sanitized(config);
    AcceptedIsSettled(given, previous, config, positive);
    PasswordIsNotDropped();
    RedactedForm(config);
    PasswordComesBack(config);
  }

  lemma PreparedKeepsText(config: Config, key: GoString)
    requires key !in DROPPED
    ensures TextAt(Prepared(config), key) == TextAt(config, key)
  {
    if key in config && config[key].String? {
      assert TrimSpace(TrimSpace(config[key].s)) == TrimSpace(config[key].s);
    }
  }

  /** A new password replaces the previous one; without one the previous password stays. */
  lemma PasswordAfterSave(given: Config, previous: Config, positive: GoString -> bool)
    requires SanitizeLDAP(given, previous, true, positive).Sanitized?
    ensures TextAt(SanitizeLDAP(given, previous, true, positive).config, PASSWORD) ==
            if TextAt(given, PASSWORD) != "" then TextAt(given, PASSWORD) else TextAt(previous, PASSWORD)
  {
    PasswordIsNotDropped();
    PreparedKeepsText(given, PASSWORD);
    CleanSaysTheSame(WithPassword(Prepared(given), previous), PASSWORD, positive);
    PasswordAdded(Prepared(given), previous);
  }

  lemma PasswordAdded(config: Config, previous: Config)
    ensures TextAt(WithPassword(config, previous), PASSWORD) ==
            if TextAt(config, PASSWORD) != "" then TextAt(config, PASSWORD) else TextAt(previous, PASSWORD)
  {
    if PASSWORD in previous && previous[PASSWORD].String? {
      assert TrimSpace(TrimSpace(previous[PASSWORD].s)) == TrimSpace(previous[PASSWORD].s);
    }
  }
}
