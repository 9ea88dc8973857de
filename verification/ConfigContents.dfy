/** What a saved configuration keeps of the one that is given, value by value, and which are refused. */
module ConfigContents {
  import opened Text
  import opened ConfigSaveBack

  /** In a list only a null and a blank text count as nothing. */
  predicate Counts(item: Json) {
    !item.Null? && (item.String? ==> !Blank(item.s))
  }

  ghost predicate Substance(v: Json) {
    match v
    case Null => false
    case Bool(_) => true
    case Number(n) => n > 0.0
    case String(s) => !Blank(s)
    case Array(items) => exists i :: 0 <= i < |items| && Counts(items[i])
    case Object(fields) => exists k :: k in fields && Substance(fields[k])
  }

  predicate Tidied(v: Json, w: Json) {
    w == if v.String? then String(TrimSpace(v.s)) else v
  }

  /** The items that count, in their order: `at` says where each was. */
  ghost predicate Picked(items: seq<Json>, kept: seq<Json>, at: seq<nat>) {
    && |at| == |kept|
    && (forall i | 0 <= i < |at| :: at[i] < |items| && Counts(items[at[i]]) && Tidied(items[at[i]], kept[i]))
    && (forall i, j | 0 <= i < j < |at| :: at[i] < at[j])
    && (forall k | 0 <= k < |items| && Counts(items[k]) :: k in at)
  }

  /** The second is what is left of the first, at every depth. */
  ghost predicate LeftOf(v: Json, w: Json) {
    match v
    case Array(items) => w.Array? && exists at :: Picked(items, w.items, at)
    case Object(fields) =>
      && w.Object?
      && (forall k :: k in w.fields <==> k in fields && Substance(fields[k]))
      && (forall k | k in fields && k in w.fields :: LeftOf(fields[k], w.fields[k]))
    case _ => Tidied(v, w)
  }

  // ----- removing what is empty

  lemma ItemIsKept(item: Json)
    ensures CleanItem(item).Some? <==> Counts(item)
    ensures Counts(item) ==> Tidied(item, CleanItem(item).value)
  {
    if item.String? {
      BlankTrims(item.s);
    }
  }

  lemma {:induction false} PickOneMore(init: seq<Json>, last: Json, kept: seq<Json>, at: seq<nat>, w: Json)
    requires Picked(init, kept, at) && Counts(last) && Tidied(last, w)
    ensures Picked(init + [last], kept + [w], at + [|init|])
  {
    var items, more := init + [last], at + [|init|];
    forall k | 0 <= k < |items| && Counts(items[k]) ensures k in more {
      if k < |init| {
        assert items[k] == init[k] && k in at;
      } else {
        assert more[|at|] == k;
      }
    }
  }

  lemma {:induction false} PassOver(init: seq<Json>, last: Json, kept: seq<Json>, at: seq<nat>)
    requires Picked(init, kept, at) && !Counts(last)
    ensures Picked(init + [last], kept, at)
  {
    var items := init + [last];
    forall k | 0 <= k < |items| && Counts(items[k]) ensures k in at {
      assert k < |init| && items[k] == init[k];
    }
  }

  lemma {:induction false} ItemsArePicked(items: seq<Json>) returns (at: seq<nat>)
    ensures Picked(items, CleanItems(items), at)
  {
    if items == [] {
      at := [];
    } else {
      var init, last := items[..|items| - 1], items[|items| - 1];
      at := ItemsArePicked(init);
      CleanItemsSnoc(init, last);
      assert items == init + [last];
      ItemIsKept(last);
      if Counts(last) {
        PickOneMore(init, last, CleanItems(init), at, CleanItem(last).value);
        at := at + [|init|];
      } else {
        PassOver(init, last, CleanItems(init), at);
      }
    }
  }

  lemma PickedIsNothing(items: seq<Json>, kept: seq<Json>, at: seq<nat>)
    requires Picked(items, kept, at)
    ensures kept != [] <==> exists i :: 0 <= i < |items| && Counts(items[i])
  {
    if kept != [] {
      assert Counts(items[at[0]]);
    }
  }

  lemma {:induction false} CleanIsLeft(v: Json)
    ensures Clean(v).Some? <==> Substance(v)
    ensures Clean(v).Some? ==> LeftOf(v, Clean(v).value)
  {
    match v
    case String(s) => BlankTrims(s);
    case Array(items) =>
      var at := ItemsArePicked(items);
      PickedIsNothing(items, CleanItems(items), at);
    case Object(fields) =>
      forall k | k in fields
        ensures Clean(fields[k]).Some? <==> Substance(fields[k])
        ensures Clean(fields[k]).Some? ==> LeftOf(fields[k], Clean(fields[k]).value)
      {
        CleanIsLeft(fields[k]);
      }
      FieldsAreLeft(fields);
    case _ =>
  }

  lemma FieldsAreLeft(fields: Config)
    requires forall k | k in fields :: Clean(fields[k]).Some? <==> Substance(fields[k])
    requires forall k | k in fields :: Clean(fields[k]).Some? ==> LeftOf(fields[k], Clean(fields[k]).value)
    ensures Clean(Object(fields)).Some? <==> Substance(Object(fields))
    ensures Clean(Object(fields)).Some? ==> LeftOf(Object(fields), Clean(Object(fields)).value)
  {
    var nested := RemoveEmpty(fields);
    if k :| k in fields && Substance(fields[k]) {
      assert k in nested;
    } else {
      assert nested == map[];
    }
  }

  /** A key stays exactly when there is something under it, and then with what is left of it. */
  lemma KeptExactly(config: Config, key: GoString)
    ensures key in RemoveEmpty(config) <==> key in config && Substance(config[key])
    ensures key in RemoveEmpty(config) ==> LeftOf(config[key], RemoveEmpty(config)[key])
  {
    if key in config {
      CleanIsLeft(config[key]);
    }
  }

  // ----- hiding secrets

  predicate HasText(config: Config, key: GoString) {
    key in config && config[key].String? && !Blank(config[key].s)
  }

  lemma TextIsThere(config: Config, key: GoString)
    ensures TextAt(config, key) != "" <==> HasText(config, key)
  {
    if key in config && config[key].String? {
      BlankTrims(config[key].s);
    }
  }

  /** A marker says `has` and the name with its first letter in upper case. */
  lemma MarkerOf(name: GoString)
    ensures var key := TrimSpace(name);
            PresenceKey(name) == if key == "" then "hasSecret" else "has" + [UpperByte(key[0])] + key[1..]
  {
    var key := TrimSpace(name);
    if key != "" {
      assert key[..1] == [key[0]];
      assert ToUpper([key[0]]) == [UpperByte(key[0])];
    }
  }

  /** No secret has the name of a marker. */
  predicate Apart(keys: seq<GoString>) {
    forall i, j | 0 <= i < |keys| && 0 <= j < |keys| :: PresenceKey(keys[i]) != keys[j]
  }

  /** A secret of that marker has a text. */
  predicate Marked(config: Config, keys: seq<GoString>, key: GoString) {
    exists i :: 0 <= i < |keys| && HasText(config, keys[i]) && PresenceKey(keys[i]) == key
  }

  /** True under a marker, nothing under a secret that is gone, and else what was there. */
  predicate Shows(redacted: Config, config: Config, key: GoString, marked: bool, gone: bool) {
    if marked then IsTrue(redacted, key)
    else if gone then key !in redacted
    else (key in redacted <==> key in config) && (key in config ==> redacted[key] == config[key])
  }

  /** Markers of secrets with a text are true, those secrets are gone, and all else is as it was. */
  predicate RedactedAt(config: Config, keys: seq<GoString>, key: GoString, redacted: Config) {
    Shows(redacted, config, key, Marked(config, keys, key), key in keys && HasText(config, key))
  }

  lemma ShowsAfter(before: Config, config: Config, key: GoString, secret: GoString, marker: GoString, marked: bool, gone: bool)
    requires Shows(before, config, key, marked, gone) && !(marked && key == secret)
    ensures Shows((before - {secret})[marker := Bool(true)], config, key, marked || key == marker, gone || key == secret)
  {
  }

  lemma {:induction false} RedactExactly(config: Config, keys: seq<GoString>, key: GoString)
    requires Apart(keys)
    ensures RedactedAt(config, keys, key, Redact(config, keys))
    decreases |keys|
  {
    if keys != [] {
      var init := keys[..|keys| - 1];
      assert Apart(init);
      RedactExactly(config, init, key);
      RedactExactly(config, init, keys[|keys| - 1]);
      RedactLast(config, keys, key, Redact(config, init));
    }
  }

  lemma {:induction false} RedactLast(config: Config, keys: seq<GoString>, key: GoString, before: Config)
    requires keys != [] && Apart(keys)
    requires RedactedAt(config, keys[..|keys| - 1], key, before) && RedactedAt(config, keys[..|keys| - 1], keys[|keys| - 1], before)
    ensures RedactedAt(config, keys, key, RedactKey(before, keys[|keys| - 1]))
  {
    var init, last := keys[..|keys| - 1], keys[|keys| - 1];
    var marked, gone := Marked(config, init, key), key in init && HasText(config, key);
    assert keys == init + [last];
    MarkedOneMore(config, init, last, key);
    LastIsUntouched(config, keys, before);
    TextIsThere(before, last);
    if Marked(config, keys, key) {
      LastIsNoMarker(config, keys, key);
    }
    if HasText(before, last) {
      ShowsAfter(before, config, key, last, PresenceKey(last), marked, gone);
    } else {
      assert key == last && HasText(config, last) ==> gone;
    }
  }

  lemma {:induction false} LastIsNoMarker(config: Config, keys: seq<GoString>, key: GoString)
    requires keys != [] && Apart(keys) && Marked(config, keys, key)
    ensures key !in keys
  {
  }

  lemma {:induction false} LastIsUntouched(config: Config, keys: seq<GoString>, before: Config)
    requires keys != [] && Apart(keys) && RedactedAt(config, keys[..|keys| - 1], keys[|keys| - 1], before)
    ensures HasText(before, keys[|keys| - 1]) <==> HasText(config, keys[|keys| - 1]) && keys[|keys| - 1] !in keys[..|keys| - 1]
  {
    var init, last := keys[..|keys| - 1], keys[|keys| - 1];
    assert forall i | 0 <= i < |init| :: init[i] == keys[i] && PresenceKey(keys[i]) != last;
    assert !Marked(config, init, last);
  }

  lemma MarkedOneMore(config: Config, init: seq<GoString>, last: GoString, key: GoString)
    ensures Marked(config, init + [last], key) <==> Marked(config, init, key) || (HasText(config, last) && PresenceKey(last) == key)
  {
    var keys := init + [last];
    if i :| 0 <= i < |init| && HasText(config, init[i]) && PresenceKey(init[i]) == key {
      assert keys[i] == init[i];
    }
    if HasText(config, last) && PresenceKey(last) == key {
      assert keys[|init|] == last;
    }
  }

  // ----- the LDAP settings

  predicate PortIsPositive(config: Config, positive: GoString -> bool) {
    && "port" in config
    && (|| (config["port"].Number? && config["port"].n > 0.0)
        || (config["port"].String? && positive(TrimSpace(config["port"].s))))
  }

  /** What an enabled configuration needs: an address, a base, a filter, a name and a password to bind
      with, given or kept from before, not both ways of encryption, and a port. */
  predicate Complete(given: Config, previous: Config, positive: GoString -> bool) {
    && HasText(given, HOST) && HasText(given, BASE_DN) && HasText(given, USER_FILTER) && HasText(given, BIND_DN)
    && (HasText(given, PASSWORD) || HasText(previous, PASSWORD))
    && !("useTLS" in given && given["useTLS"] == Bool(true) && "startTLS" in given && given["startTLS"] == Bool(true))
    && PortIsPositive(given, positive)
  }

  lemma KeysDiffer()
    ensures HOST !in DROPPED && BASE_DN !in DROPPED && USER_FILTER !in DROPPED && BIND_DN !in DROPPED && PASSWORD !in DROPPED
    ensures "useTLS" !in DROPPED && "startTLS" !in DROPPED && "port" !in DROPPED
    ensures "useTLS" != PASSWORD && "startTLS" != PASSWORD && "port" != PASSWORD
    ensures HOST != PASSWORD && BASE_DN != PASSWORD && USER_FILTER != PASSWORD && BIND_DN != PASSWORD
  {
    PasswordIsNotDropped();
    assert |"defaultRole"| == 11 && |"adminGroupDN"| == 12 && |MARKER| == 15 && |PASSWORD| == 12;
    assert |HOST| == 4 && |BASE_DN| == 6 && |USER_FILTER| == 10 && |BIND_DN| == 6;
    assert |"useTLS"| == 6 && |"startTLS"| == 8 && |"port"| == 4;
  }

  lemma PreparedIs(given: Config, previous: Config, key: GoString)
    requires key !in DROPPED && key != PASSWORD
    ensures var complete := WithPassword(Prepared(given), previous);
            (key in complete <==> key in given) && (key in given ==> Tidied(given[key], complete[key]))
  {
  }

  lemma TidiedSays(a: Config, b: Config, key: GoString, positive: GoString -> bool)
    requires (key in b <==> key in a) && (key in a ==> Tidied(a[key], b[key]))
    ensures IsTrue(b, key) == IsTrue(a, key)
    ensures IsPositive(b, key, positive) == IsPositive(a, key, positive)
  {
    if key in a && a[key].String? {
      assert TrimSpace(TrimSpace(a[key].s)) == TrimSpace(a[key].s);
    }
  }

  lemma PreparedSays(given: Config, previous: Config, key: GoString, positive: GoString -> bool)
    requires key !in DROPPED && key != PASSWORD
    ensures var complete := WithPassword(Prepared(given), previous);
            && IsTrue(complete, key) == IsTrue(given, key)
            && IsPositive(complete, key, positive) == IsPositive(given, key, positive)
  {
    PreparedIs(given, previous, key);
    TidiedSays(given, WithPassword(Prepared(given), previous), key, positive);
  }

  lemma TextIsPrepared(given: Config, previous: Config, key: GoString)
    requires key !in DROPPED && key != PASSWORD
    ensures TextAt(WithPassword(Prepared(given), previous), key) != "" <==> HasText(given, key)
  {
    PreparedKeepsText(given, key);
    TextIsThere(given, key);
  }

  lemma PasswordIsPrepared(given: Config, previous: Config)
    ensures TextAt(WithPassword(Prepared(given), previous), PASSWORD) != "" <==> HasText(given, PASSWORD) || HasText(previous, PASSWORD)
  {
    PasswordIsNotDropped();
    PreparedKeepsText(given, PASSWORD);
    PasswordAdded(Prepared(given), previous);
    TextIsThere(given, PASSWORD);
    TextIsThere(previous, PASSWORD);
  }

  lemma RequiredExactly(given: Config, previous: Config)
    ensures HasRequired(WithPassword(Prepared(given), previous)) <==>
            && HasText(given, HOST) && HasText(given, BASE_DN) && HasText(given, USER_FILTER) && HasText(given, BIND_DN)
            && (HasText(given, PASSWORD) || HasText(previous, PASSWORD))
  {
    KeysDiffer();
    TextIsPrepared(given, previous, HOST);
    TextIsPrepared(given, previous, BASE_DN);
    TextIsPrepared(given, previous, USER_FILTER);
    TextIsPrepared(given, previous, BIND_DN);
    PasswordIsPrepared(given, previous);
  }

  lemma TransportExactly(given: Config, previous: Config, positive: GoString -> bool)
    ensures OneTransport(WithPassword(Prepared(given), previous)) <==> !(IsTrue(given, "useTLS") && IsTrue(given, "startTLS"))
    ensures IsPositive(WithPassword(Prepared(given), previous), "port", positive) <==> PortIsPositive(given, positive)
  {
    KeysDiffer();
    PreparedSays(given, previous, "useTLS", positive);
    PreparedSays(given, previous, "startTLS", positive);
    PreparedSays(given, previous, "port", positive);
  }

  /** An enabled configuration is saved exactly when it is complete; a disabled one always. */
  lemma SavedExactly(given: Config, previous: Config, enabled: bool, positive: GoString -> bool)
    ensures SanitizeLDAP(given, previous, enabled, positive).Sanitized? <==> !enabled || Complete(given, previous, positive)
  {
    RequiredExactly(given, previous);
    TransportExactly(given, previous, positive);
  }

  /** What is under a key that is neither dropped nor the password: what is left of what was given. */
  lemma SavedContents(given: Config, previous: Config, enabled: bool, positive: GoString -> bool, key: GoString)
    requires SanitizeLDAP(given, previous, enabled, positive).Sanitized?
    ensures var saved := SanitizeLDAP(given, previous, enabled, positive).config;
            if key == "defaultRole" || key == "adminGroupDN" || key == "hasBindPassword" then key !in saved
            else if enabled && key == "bindPassword" then
              key in saved && saved[key] == String(TextAt(if HasText(given, key) then given else previous, key))
            else (key in saved <==> key in given && Substance(given[key])) && (key in saved ==> LeftOf(given[key], saved[key]))
  {
    var prepared := Prepared(given);
    var complete := if enabled then WithPassword(prepared, previous) else prepared;
    PasswordIsNotDropped();
    KeptExactly(complete, key);
    if enabled && key == PASSWORD {
      SavedExactly(given, previous, enabled, positive);
      PasswordAfterSave(given, previous, positive);
      PasswordIsAText(given, previous, positive);
      TextIsThere(given, PASSWORD);
    } else if key !in DROPPED && key in given {
      TrimmedFirst(given[key]);
    }
  }

  lemma PasswordIsAText(given: Config, previous: Config, positive: GoString -> bool)
    requires SanitizeLDAP(given, previous, true, positive).Sanitized?
    ensures var saved := SanitizeLDAP(given, previous, true, positive).config;
            PASSWORD in saved && saved[PASSWORD] == String(TextAt(saved, PASSWORD))
  {
    var complete := WithPassword(Prepared(given), previous);
    assert complete[PASSWORD].String?;
  }

  /** Trimming a text before what is empty is removed makes no difference. */
  lemma TrimmedFirst(v: Json)
    ensures var t := if v.String? then String(TrimSpace(v.s)) else v;
            (Substance(t) <==> Substance(v)) && forall w :: LeftOf(t, w) <==> LeftOf(v, w)
  {
    if v.String? {
      BlankTrims(v.s);
      BlankTrims(TrimSpace(v.s));
      assert TrimSpace(TrimSpace(v.s)) == TrimSpace(v.s);
    }
  }
}
