/** Editing a DHCP scope: the backend completes the request from its snapshot and lists what changed,
    and the agent turns that list into commands on the Windows scope. */
module ScopeUpdate {
  import opened Options
  import opened Text
  import opened Ipv4
  import opened DhcpAddresses
  import DhcpSnapshot

  datatype Scope = Scope(id: GoString, externalId: GoString, name: GoString, description: GoString, subnet: GoString,
                         gateway: GoString, startRange: GoString, endRange: GoString, hours: int, seconds: int,
                         state: GoString)

  datatype Field = NameField | DescriptionField | GatewayField | LeaseField | RangeField | StateField

  // ----- the backend

  /** The backend's `dhcpExternalID`: the first text that is not blank, up to a slash. */
  function DhcpExternalId(values: seq<GoString>): GoString {
    if values == [] then "" else
    var value := TrimSpace(values[0]);
    if value == "" then DhcpExternalId(values[1..])
    else if Contains(value, '/') then Split(value, '/')[0]
    else value
  }

  /** The request under the snapshot's identifier, with what it leaves out taken from the snapshot. */
  function Completed(current: Scope, request: Scope): Scope {
    var (hours, seconds) := DhcpSnapshot.LeaseDuration(request.hours, request.seconds);
    var externalId := DhcpExternalId([current.externalId, current.subnet, current.id]);
    request.(id := externalId, externalId := externalId, subnet := current.subnet,
             startRange := if TrimSpace(request.startRange) == "" then current.startRange else request.startRange,
             endRange := if TrimSpace(request.endRange) == "" then current.endRange else request.endRange,
             state := if TrimSpace(request.state) == "" then current.state else request.state,
             hours := hours, seconds := seconds)
  }

  predicate SameTrimmed(a: GoString, b: GoString) {
    TrimSpace(a) == TrimSpace(b)
  }

  predicate Differs(a: Scope, b: Scope, f: Field) {
    match f
    case NameField => !SameTrimmed(a.name, b.name)
    case DescriptionField => !SameTrimmed(a.description, b.description)
    case GatewayField => !SameTrimmed(a.gateway, b.gateway)
    case LeaseField => a.seconds != b.seconds
    case RangeField => !SameTrimmed(a.startRange, b.startRange) || !SameTrimmed(a.endRange, b.endRange)
    case StateField => !SameTrimmed(a.state, b.state)
  }

  function AppendIf(fields: seq<Field>, f: Field, condition: bool): (r: seq<Field>)
    ensures forall g :: g in r <==> g in fields || (condition && g == f)
  {
    if condition then fields + [f] else fields
  }

  /** The six tests of `dhcpScopeChangedFields`, in their order. */
  method Listed(differs: Field -> bool) returns (fields: seq<Field>)
    ensures forall f :: f in fields <==> differs(f)
    ensures |fields| <= 6
  {
    fields := AppendIf([], NameField, differs(NameField));
    fields := AppendIf(fields, DescriptionField, differs(DescriptionField));
    fields := AppendIf(fields, GatewayField, differs(GatewayField));
    fields := AppendIf(fields, LeaseField, differs(LeaseField));
    fields := AppendIf(fields, RangeField, differs(RangeField));
    fields := AppendIf(fields, StateField, differs(StateField));
    forall f: Field ensures f in fields <==> differs(f) {
      match f
      case NameField =>
      case DescriptionField =>
      case GatewayField =>
      case LeaseField =>
      case RangeField =>
      case StateField =>
    }
  }

  /** The backend's `dhcpScopeChangedFields`: the fields that differ. */
  method ChangedFields(current: Scope, next: Scope) returns (fields: seq<Field>)
    ensures forall f :: f in fields <==> Differs(current, next, f)
  {
    fields := Listed(f => Differs(current, next, f));
  }

  // ----- the agent

  /** Without a subnet the gateway only has to be an address. */
  predicate AgentTakesGateway(subnet: GoString, gateway: GoString) {
    if TrimSpace(subnet) == "" then ParseIPv4(TrimSpace(gateway)).Parsed?
    else AgentGateway(subnet, gateway) == Accepted
  }

  /** The scope's ID, or the address of its subnet. */
  function AgentScopeId(s: Scope): GoString {
    if TrimSpace(s.id) != "" then TrimSpace(s.id)
    else match AgentSubnet(TrimSpace(s.subnet))
         case Parsed(subnet) => subnet.0
         case Malformed => ""
  }

  predicate AgentAccepts(s: Scope) {
    TrimSpace(s.name) != "" && ParseIPv4(AgentScopeId(s)).Parsed? && AgentTakesGateway(s.subnet, s.gateway)
  }

  /** The agent's route for updates needs an identifier, which becomes the scope's. */
  predicate AgentTakes(s: Scope) {
    s.id != "" && AgentAccepts(s)
  }

  /** What the agent's `normalizeScopeUpdate` makes of a scope it accepts. The range is not trimmed. */
  function Normalized(s: Scope): Scope {
    s.(id := AgentScopeId(s), name := TrimSpace(s.name), description := TrimSpace(s.description),
       subnet := TrimSpace(s.subnet), gateway := TrimSpace(s.gateway),
       state := if TrimSpace(s.state) == "" then "Active" else TrimSpace(s.state),
       hours := if s.seconds == -1 then 0 else if s.hours <= 0 then 24 else s.hours)
  }

  /** Commands on the Windows scope. An unlimited lease is set through its option, which is where Windows
      keeps the lease duration. */
  datatype Command =
    | SetScope(name: Option<GoString>, description: Option<GoString>, lease: Option<int>, state: Option<GoString>,
               range: Option<(GoString, GoString)>)
    | SetUnlimitedLease
    | SetRouter(gateway: GoString)

  const NOTHING := SetScope(None, None, None, None, None)

  function LeaseSeconds(s: Scope): int {
    if s.seconds <= 0 then s.hours * 3600 else s.seconds
  }

  function Arguments(s: Scope, changed: set<Field>): Command {
    SetScope(if NameField in changed then Some(s.name) else None,
             if DescriptionField in changed then Some(s.description) else None,
             if LeaseField in changed && s.seconds != -1 then Some(LeaseSeconds(s)) else None,
             if StateField in changed then Some(s.state) else None,
             if RangeField in changed && s.startRange != "" && s.endRange != "" then Some((s.startRange, s.endRange)) else None)
  }

  const ALL_FIELDS: set<Field> := {NameField, DescriptionField, GatewayField, LeaseField, RangeField, StateField}

  function Commands(s: Scope, changed: set<Field>): seq<Command> {
    var fields := if changed == {} then ALL_FIELDS else changed;
    (if Arguments(s, fields) != NOTHING then [Arguments(s, fields)] else [])
      + (if LeaseField in fields && s.seconds == -1 then [SetUnlimitedLease] else [])
      + (if GatewayField in fields then [SetRouter(s.gateway)] else [])
  }

  /** The agent's `updateScopeScript`, from a normalized scope. */
  method UpdateScopeScript(s: Scope, changedFields: seq<Field>) returns (commands: seq<Command>)
    ensures commands == Commands(s, set f | f in changedFields)
  {
    var changed := set f | f in changedFields;
    if changed == {} {
      changed := ALL_FIELDS;
    }
    var args := NOTHING;
    var unlimited := false;
    if NameField in changed {
      args := args.(name := Some(s.name));
    }
    if DescriptionField in changed {
      args := args.(description := Some(s.description));
    }
    if LeaseField in changed {
      if s.seconds == -1 {
        unlimited := true;
      } else {
        args := args.(lease := Some(LeaseSeconds(s)));
      }
    }
    if StateField in changed {
      args := args.(state := Some(s.state));
    }
    if RangeField in changed && s.startRange != "" && s.endRange != "" {
      args := args.(range := Some((s.startRange, s.endRange)));
    }
    commands := [];
    if args != NOTHING {
      commands := commands + [args];
    }
    if unlimited {
      commands := commands + [SetUnlimitedLease];
    }
    if GatewayField in changed {
      commands := commands + [SetRouter(s.gateway)];
    }
  }

  // ----- the Windows scope

  /** Seconds of -1 stand for an unlimited lease. */
  datatype WindowsScope = WindowsScope(name: GoString, description: GoString, gateway: GoString, seconds: int,
                                       startRange: GoString, endRange: GoString, state: GoString)

  function Or<T>(o: Option<T>, default: T): T {
    if o.Some? then o.value else default
  }

  function Apply(w: WindowsScope, c: Command): WindowsScope {
    match c
    case SetScope(name, description, lease, state, range) =>
      w.(name := Or(name, w.name), description := Or(description, w.description), seconds := Or(lease, w.seconds),
         state := Or(state, w.state), startRange := Or(range, (w.startRange, w.endRange)).0,
         endRange := Or(range, (w.startRange, w.endRange)).1)
    case SetUnlimitedLease => w.(seconds := -1)
    case SetRouter(gateway) => w.(gateway := gateway)
  }

  function Execute(w: WindowsScope, commands: seq<Command>): WindowsScope
    decreases |commands|
  {
    if commands == [] then w else Execute(Apply(w, commands[0]), commands[1..])
  }

  /** The Windows scope as a scope to compare with. */
  function AsScope(w: WindowsScope, s: Scope): Scope {
    s.(name := w.name, description := w.description, gateway := w.gateway, seconds := w.seconds,
       startRange := w.startRange, endRange := w.endRange, state := w.state)
  }

  /** Equal up to trimming in everything that can be edited. */
  predicate Matches(w: WindowsScope, s: Scope) {
    forall f: Field :: !Differs(AsScope(w, s), s, f)
  }

  ghost function Changes(current: Scope, next: Scope): set<Field> {
    set f: Field | Differs(current, next, f)
  }

  lemma ExecuteUpToThree(w: WindowsScope, a: seq<Command>, b: seq<Command>, c: seq<Command>)
    requires |a| <= 1 && |b| <= 1 && |c| <= 1
    ensures Execute(w, a + b + c) == Execute(Execute(Execute(w, a), b), c)
  {
    ExecuteConcat(w, a + b, c);
    ExecuteConcat(w, a, b);
  }

  lemma {:induction false} ExecuteConcat(w: WindowsScope, a: seq<Command>, b: seq<Command>)
    ensures Execute(w, a + b) == Execute(Execute(w, a), b)
    decreases |a|
  {
    if a == [] {
      assert a + b == b;
    } else {
      assert (a + b)[1..] == a[1..] + b;
      ExecuteConcat(Apply(w, a[0]), a[1..], b);
    }
  }

  /** What the commands for a nonempty list of fields leave: those fields from the scope, the rest as it was. */
  function Patched(w: WindowsScope, s: Scope, changed: set<Field>): WindowsScope {
    WindowsScope(if NameField in changed then s.name else w.name,
                 if DescriptionField in changed then s.description else w.description,
                 if GatewayField in changed then s.gateway else w.gateway,
                 if LeaseField in changed then (if s.seconds == -1 then -1 else LeaseSeconds(s)) else w.seconds,
                 if RangeField in changed && s.startRange != "" && s.endRange != "" then s.startRange else w.startRange,
                 if RangeField in changed && s.startRange != "" && s.endRange != "" then s.endRange else w.endRange,
                 if StateField in changed then s.state else w.state)
  }

  lemma CommandsPatch(w: WindowsScope, s: Scope, changed: set<Field>)
    ensures Execute(w, Commands(s, changed)) == Patched(w, s, if changed == {} then ALL_FIELDS else changed)
  {
    var fields := if changed == {} then ALL_FIELDS else changed;
    var args := Arguments(s, fields);
    var a := if args != NOTHING then [args] else [];
    var b := if LeaseField in fields && s.seconds == -1 then [SetUnlimitedLease] else [];
    var c := if GatewayField in fields then [SetRouter(s.gateway)] else [];
    ExecuteUpToThree(w, a, b, c);
    assert Execute(w, a) == Apply(w, args);
  }

  // ----- the pair

  /** The diff is empty exactly when there is nothing to apply. */
  lemma EmptyDiffMeansMatch(w: WindowsScope, current: Scope, next: Scope)
    requires Matches(w, current)
    ensures Changes(current, next) == {} <==> Matches(w, next)
  {
    forall f: Field ensures Differs(AsScope(w, next), next, f) <==> Differs(current, next, f) {
      assert !Differs(AsScope(w, current), current, f);
    }
    if Changes(current, next) == {} {
      forall f: Field ensures !Differs(current, next, f) {
        assert f !in Changes(current, next);
      }
    }
  }

  predicate RangeIsSkipped(current: Scope, next: Scope) {
    Differs(current, next, RangeField) && (next.startRange == "" || next.endRange == "")
  }

  /** A text of the Windows scope after the patch: the agent's trimmed one if the text changes. */
  lemma TextAfterPatch(windows: GoString, current: GoString, next: GoString)
    requires SameTrimmed(windows, current)
    ensures SameTrimmed(if SameTrimmed(current, next) then windows else TrimSpace(next), next)
    ensures SameTrimmed(if SameTrimmed(current, next) then windows else next, next)
  {
    assert TrimSpace(TrimSpace(next)) == TrimSpace(next);
  }

  lemma NameAfterPatch(w: WindowsScope, current: Scope, next: Scope)
    requires SameTrimmed(w.name, current.name)
    ensures SameTrimmed(if Differs(current, next, NameField) then Normalized(next).name else w.name, next.name)
  {
    TextAfterPatch(w.name, current.name, next.name);
  }

  lemma DescriptionAfterPatch(w: WindowsScope, current: Scope, next: Scope)
    requires SameTrimmed(w.description, current.description)
    ensures SameTrimmed(if Differs(current, next, DescriptionField) then Normalized(next).description else w.description, next.description)
  {
    TextAfterPatch(w.description, current.description, next.description);
  }

  lemma GatewayAfterPatch(w: WindowsScope, current: Scope, next: Scope)
    requires SameTrimmed(w.gateway, current.gateway)
    ensures SameTrimmed(if Differs(current, next, GatewayField) then Normalized(next).gateway else w.gateway, next.gateway)
  {
    TextAfterPatch(w.gateway, current.gateway, next.gateway);
  }

  lemma LeaseIsKept(s: Scope)
    requires s.seconds > 0
    ensures LeaseSeconds(s) == s.seconds
  {
  }

  lemma LeaseAfterPatch(w: WindowsScope, current: Scope, next: Scope)
    requires w.seconds == current.seconds && (next.seconds == -1 || next.seconds > 0)
    ensures (if !Differs(current, next, LeaseField) then w.seconds else if next.seconds == -1 then -1 else LeaseSeconds(Normalized(next))) == next.seconds
  {
    var written := Normalized(next);
    assert written.seconds == next.seconds;
    if next.seconds > 0 {
      LeaseIsKept(written);
    }
  }

  lemma RangeAfterPatch(w: WindowsScope, current: Scope, next: Scope)
    requires SameTrimmed(w.startRange, current.startRange) && SameTrimmed(w.endRange, current.endRange)
    ensures var written := Differs(current, next, RangeField) && next.startRange != "" && next.endRange != "";
            (SameTrimmed(if written then next.startRange else w.startRange, next.startRange)
             && SameTrimmed(if written then next.endRange else w.endRange, next.endRange)) <==> !RangeIsSkipped(current, next)
  {
  }

  lemma NamedState(next: Scope)
    requires TrimSpace(next.state) != ""
    ensures SameTrimmed(Normalized(next).state, next.state)
  {
    assert TrimSpace(TrimSpace(next.state)) == TrimSpace(next.state);
  }

  /** A state that changes is not blank in a completed request. */
  lemma StateAfterPatch(w: WindowsScope, current: Scope, next: Scope)
    requires SameTrimmed(w.state, current.state) && (Differs(current, next, StateField) ==> TrimSpace(next.state) != "")
    ensures SameTrimmed(if Differs(current, next, StateField) then Normalized(next).state else w.state, next.state)
  {
    if Differs(current, next, StateField) {
      NamedState(next);
    } else {
      assert SameTrimmed(current.state, next.state);
    }
  }

  lemma MatchesFields(w: WindowsScope, s: Scope)
    ensures Matches(w, s) <==>
            && SameTrimmed(w.name, s.name) && SameTrimmed(w.description, s.description) && SameTrimmed(w.gateway, s.gateway)
            && w.seconds == s.seconds && SameTrimmed(w.startRange, s.startRange) && SameTrimmed(w.endRange, s.endRange)
            && SameTrimmed(w.state, s.state)
  {
    var a := AsScope(w, s);
    assert Matches(w, s) ==> !Differs(a, s, NameField) && !Differs(a, s, DescriptionField) && !Differs(a, s, GatewayField)
                             && !Differs(a, s, LeaseField) && !Differs(a, s, RangeField) && !Differs(a, s, StateField);
  }

  /** Applying just the changed fields makes a matching Windows scope match what was asked for, except
      exactly where the range changes and one of its ends is empty. */
  lemma PatchMatchesExactly(w: WindowsScope, current: Scope, next: Scope)
    requires Matches(w, current) && (next.seconds == -1 || next.seconds > 0)
    requires Differs(current, next, StateField) ==> TrimSpace(next.state) != ""
    ensures Matches(Patched(w, Normalized(next), Changes(current, next)), next) <==> !RangeIsSkipped(current, next)
  {
    MatchesFields(w, current);
    MatchesFields(Patched(w, Normalized(next), Changes(current, next)), next);
    assert forall f: Field :: f in Changes(current, next) <==> Differs(current, next, f);
    NameAfterPatch(w, current, next);
    DescriptionAfterPatch(w, current, next);
    GatewayAfterPatch(w, current, next);
    LeaseAfterPatch(w, current, next);
    RangeAfterPatch(w, current, next);
    StateAfterPatch(w, current, next);
  }

  /** A completed request has a settled lease, changes the state only to one that is named, and keeps
      the ends of the range that it leaves out. */
  lemma CompletedIsSettled(current: Scope, request: Scope)
    ensures var next := Completed(current, request);
            && (next.seconds == -1 || next.seconds > 0)
            && (Differs(current, next, StateField) ==> TrimSpace(next.state) != "")
            && (TrimSpace(current.startRange) != "" && TrimSpace(current.endRange) != "" ==> !RangeIsSkipped(current, next))
  {
  }

  /** The whole update: an empty diff when there is nothing to apply, and otherwise commands after which
      the Windows scope matches the completed request. */
  lemma UpdateReachesTheRequest(w: WindowsScope, current: Scope, request: Scope)
    requires Matches(w, current)
    ensures var next := Completed(current, request);
            var changed := Changes(current, next);
            && (changed == {} <==> Matches(w, next))
            && (changed != {} ==> (Matches(Execute(w, Commands(Normalized(next), changed)), next) <==> !RangeIsSkipped(current, next)))
            && (TrimSpace(current.startRange) != "" && TrimSpace(current.endRange) != "" && changed != {} ==>
                  Matches(Execute(w, Commands(Normalized(next), changed)), next))
  {
    var next := Completed(current, request);
    CompletedIsSettled(current, request);
    EmptyDiffMeansMatch(w, current, next);
    CommandsPatch(w, Normalized(next), Changes(current, next));
    PatchMatchesExactly(w, current, next);
  }

  // ----- against the request as it came

  /** The Windows scope after an update: when nothing is listed, nothing is sent. */
  ghost function AfterUpdate(w: WindowsScope, current: Scope, request: Scope): WindowsScope {
    var next := Completed(current, request);
    var changed := Changes(current, next);
    if changed == {} then w else Execute(w, Commands(Normalized(next), changed))
  }

  /** What is asked for is there, up to trimming; where nothing is asked for, what was there before. */
  predicate TextReached(after: GoString, before: GoString, asked: GoString) {
    SameTrimmed(after, if TrimSpace(asked) == "" then before else asked)
  }

  /** The seconds asked for; without them the hours; without those a day. */
  predicate LeaseReached(seconds: int, request: Scope) {
    if request.seconds == -1 || request.seconds > 0 then seconds == request.seconds
    else seconds == if request.hours > 0 then request.hours * 3600 else 86400
  }

  predicate RangeReached(after: WindowsScope, before: WindowsScope, request: Scope) {
    TextReached(after.startRange, before.startRange, request.startRange) && TextReached(after.endRange, before.endRange, request.endRange)
  }

  predicate RestReached(after: WindowsScope, before: WindowsScope, request: Scope) {
    && SameTrimmed(after.name, request.name) && SameTrimmed(after.description, request.description)
    && SameTrimmed(after.gateway, request.gateway) && LeaseReached(after.seconds, request)
    && TextReached(after.state, before.state, request.state)
  }

  predicate AsksOtherwise(asked: GoString, stored: GoString) {
    TrimSpace(asked) != "" && !SameTrimmed(asked, stored)
  }

  /** A new end of the range is asked for, and one end is neither asked for nor stored. */
  predicate HalfRange(current: Scope, request: Scope) {
    && (AsksOtherwise(request.startRange, current.startRange) || AsksOtherwise(request.endRange, current.endRange))
    && ((TrimSpace(request.startRange) == "" && current.startRange == "") || (TrimSpace(request.endRange) == "" && current.endRange == ""))
  }

  lemma CompletedLease(current: Scope, request: Scope)
    ensures LeaseReached(Completed(current, request).seconds, request)
  {
  }

  lemma CompletedEnd(stored: GoString, asked: GoString)
    ensures var next := if TrimSpace(asked) == "" then stored else asked;
            && (SameTrimmed(stored, next) <==> !AsksOtherwise(asked, stored))
            && (next == "" <==> TrimSpace(asked) == "" && stored == "")
  {
  }

  lemma CompletedRange(current: Scope, request: Scope)
    ensures RangeIsSkipped(current, Completed(current, request)) <==> HalfRange(current, request)
  {
    CompletedEnd(current.startRange, request.startRange);
    CompletedEnd(current.endRange, request.endRange);
  }

  lemma OnlyOneLease(request: Scope, a: int, b: int)
    requires LeaseReached(a, request)
    ensures LeaseReached(b, request) <==> a == b
  {
  }

  /** Matching the completed request is having what the request itself asks for. */
  lemma MatchIsReached(after: WindowsScope, before: WindowsScope, current: Scope, request: Scope)
    requires Matches(before, current)
    ensures Matches(after, Completed(current, request)) <==> RestReached(after, before, request) && RangeReached(after, before, request)
  {
    var next := Completed(current, request);
    MatchesFields(before, current);
    MatchesFields(after, next);
    CompletedLease(current, request);
    OnlyOneLease(request, next.seconds, after.seconds);
    SameReached(after.state, before.state, current.state, request.state);
    SameReached(after.startRange, before.startRange, current.startRange, request.startRange);
    SameReached(after.endRange, before.endRange, current.endRange, request.endRange);
  }

  lemma SameReached(after: GoString, before: GoString, current: GoString, asked: GoString)
    requires SameTrimmed(before, current)
    ensures SameTrimmed(after, if TrimSpace(asked) == "" then current else asked) <==> TextReached(after, before, asked)
  {
  }

  /** Whatever the range, the other fields reach what is asked for; and a range that is skipped stays. */
  lemma RestIsReached(w: WindowsScope, current: Scope, request: Scope)
    requires Matches(w, current)
    ensures var next := Completed(current, request);
            var after := Patched(w, Normalized(next), Changes(current, next));
            && RestReached(after, w, request)
            && (RangeIsSkipped(current, next) ==> after.startRange == w.startRange && after.endRange == w.endRange)
  {
    var next := Completed(current, request);
    var changed := Changes(current, next);
    MatchesFields(w, current);
    CompletedIsSettled(current, request);
    CompletedLease(current, request);
    assert forall f: Field :: f in changed <==> Differs(current, next, f);
    NameAfterPatch(w, current, next);
    DescriptionAfterPatch(w, current, next);
    GatewayAfterPatch(w, current, next);
    LeaseAfterPatch(w, current, next);
    StateAfterPatch(w, current, next);
  }

  /** After an update the Windows scope has what the request asks for, except exactly a half range, and then
      it keeps its range; and nothing is listed exactly when it had all of that before. */
  lemma RequestIsReached(w: WindowsScope, current: Scope, request: Scope)
    requires Matches(w, current)
    ensures var after := AfterUpdate(w, current, request);
            && RestReached(after, w, request)
            && (RangeReached(after, w, request) <==> !HalfRange(current, request))
            && (HalfRange(current, request) ==> after.startRange == w.startRange && after.endRange == w.endRange)
    ensures Changes(current, Completed(current, request)) == {} <==> RestReached(w, w, request) && RangeReached(w, w, request)
  {
    var next := Completed(current, request);
    var changed := Changes(current, next);
    var after := AfterUpdate(w, current, request);
    UpdateReachesTheRequest(w, current, request);
    MatchIsReached(after, w, current, request);
    MatchIsReached(w, w, current, request);
    RestIsReached(w, current, request);
    CompletedRange(current, request);
    CommandsPatch(w, Normalized(next), changed);
    if changed == {} {
      assert RangeField !in changed;
    }
  }

  /** The update goes to the scope named by what comes before the slash in the first text of external ID,
      subnet and ID that is not blank, and keeps the subnet. */
  lemma UpdateNamesTheScope(current: Scope, request: Scope)
    ensures var next := Completed(current, request);
            var text := FirstText(current.externalId, current.subnet, current.id);
            && next.id == next.externalId && next.subnet == current.subnet
            && (if '/' in text then '/' !in next.id && next.id + "/" <= text else next.id == text)
            && (TrimSpace(next.id) != "" ==> Normalized(next).id == TrimSpace(next.id))
  {
    IdentifierText(current.externalId, current.subnet, current.id);
    BeforeSlashIs(FirstText(current.externalId, current.subnet, current.id));
  }

  function BeforeSlash(text: GoString): GoString {
    if Contains(text, '/') then Split(text, '/')[0] else text
  }

  lemma BeforeSlashIs(text: GoString)
    ensures var id := BeforeSlash(text);
            if '/' in text then '/' !in id && id + "/" <= text else id == text
  {
    IndexOfIsFirst(text, '/');
    var i := IndexOf(text, '/');
    if i < |text| {
      assert text[..i] + "/" == text[..i + 1];
    }
  }

  lemma IdentifierOfOne(a: GoString, more: seq<GoString>)
    ensures DhcpExternalId([a] + more) == if TrimSpace(a) == "" then DhcpExternalId(more) else BeforeSlash(TrimSpace(a))
  {
    assert ([a] + more)[1..] == more;
  }

  lemma IdentifierText(a: GoString, b: GoString, c: GoString)
    ensures DhcpExternalId([a, b, c]) == BeforeSlash(FirstText(a, b, c))
  {
    var none: seq<GoString> := [];
    IdentifierOfOne(a, [b, c]);
    IdentifierOfOne(b, [c]);
    IdentifierOfOne(c, none);
    assert [a] + [b, c] == [a, b, c] && [b] + [c] == [b, c] && [c] + none == [c];
    assert DhcpExternalId(none) == "" && BeforeSlash("") == "";
  }

  /** The agent's own settling of the lease, for any scope it is sent. */
  lemma AgentLease(s: Scope)
    ensures s.seconds > 0 ==> LeaseSeconds(Normalized(s)) == s.seconds
    ensures s.seconds <= 0 && s.seconds != -1 ==> LeaseSeconds(Normalized(s)) == if s.hours > 0 then s.hours * 3600 else 86400
  {
  }

  // ----- which requests the agent takes

  lemma AgentTakesGatewayExactly(subnet: GoString, gateway: GoString)
    requires BackendGateway(subnet, gateway) == Accepted
    ensures TrimSpace(subnet) != "" && (AgentTakesGateway(subnet, gateway) <==> Strict(subnet))
  {
    BlankIsNeither();
    GatewayChecksAgree(subnet, gateway);
  }

  lemma AgentIdExactly(s: Scope)
    requires BackendSubnet(s.subnet).Parsed? && Strict(s.subnet)
    ensures ParseIPv4(AgentScopeId(s)).Parsed? <==> TrimSpace(s.id) == "" || ParseIPv4(TrimSpace(s.id)).Parsed?
  {
    AgentParsesExactly(s.subnet);
    AgentSubnetParsed(s.subnet);
    AddressText(ParseCIDR(TrimSpace(s.subnet)).value.ip);
  }

  /** A request whose gateway the backend lets pass is accepted by the agent exactly when it has a name, the
      subnet's text is strict and the identifier, if there is one, is an address; the agent's route wants one;
      and it is an address when it comes from the subnet. */
  lemma AgentAcceptsExactly(current: Scope, request: Scope)
    requires BackendGateway(current.subnet, request.gateway) == Accepted
    ensures var next := Completed(current, request);
            && (AgentAccepts(next) <==>
                  !Blank(request.name) && Strict(current.subnet) && (TrimSpace(next.id) == "" || ParseIPv4(TrimSpace(next.id)).Parsed?))
            && (AgentTakes(next) <==>
                  !Blank(request.name) && Strict(current.subnet) && ParseIPv4(TrimSpace(next.id)).Parsed?)
            && (TrimSpace(current.externalId) == "" ==> (AgentTakes(next) <==> !Blank(request.name) && Strict(current.subnet)))
  {
    var next := Completed(current, request);
    BlankTrims(request.name);
    AgentTakesGatewayExactly(current.subnet, request.gateway);
    if Strict(current.subnet) {
      AgentIdExactly(next);
    }
    IdIsNotBlank(current, next.id);
    if TrimSpace(current.externalId) == "" {
      IdFromSubnet(current);
    }
  }

  lemma IdIsNotBlank(current: Scope, id: GoString)
    requires id == DhcpExternalId([current.externalId, current.subnet, current.id])
    ensures id == "" <==> TrimSpace(id) == ""
    ensures ParseIPv4("").Malformed?
  {
    BlankIsNeither();
    ExternalIdIsNotBlank([current.externalId, current.subnet, current.id]);
    assert TrimSpace("") == "";
  }

  lemma {:induction false} ExternalIdIsNotBlank(values: seq<GoString>)
    ensures DhcpExternalId(values) == "" || TrimSpace(DhcpExternalId(values)) != ""
  {
    if values != [] {
      var value := TrimSpace(values[0]);
      if value == "" {
        ExternalIdIsNotBlank(values[1..]);
      } else {
        BeforeSlashIsNotBlank(value);
      }
    }
  }

  lemma BeforeSlashIsNotBlank(value: GoString)
    requires value != "" && !IsSpace(value[0])
    ensures TrimSpace(value) != ""
    ensures Contains(value, '/') ==> Split(value, '/')[0] == "" || TrimSpace(Split(value, '/')[0]) != ""
  {
    NotBlank(value, 0);
    var i := IndexOf(value, '/');
    if 0 < i < |value| {
      assert Split(value, '/')[0] == value[..i];
      NotBlank(value[..i], 0);
    }
  }

  lemma IdFromSubnet(current: Scope)
    requires TrimSpace(current.externalId) == "" && BackendSubnet(current.subnet).Parsed?
    ensures var id := DhcpExternalId([current.externalId, current.subnet, current.id]);
            ParseIPv4(TrimSpace(id)).Parsed? && id != ""
  {
    var value := TrimSpace(current.subnet);
    BlankIsNeither();
    assert value != "";
    assert Contains(value, '/') by {
      assert |Split(value, '/')| == 2;
    }
    assert [current.externalId, current.subnet, current.id][1..] == [current.subnet, current.id];
    assert TrimSpace("") == "";
  }

  /** No text is neither an address nor a subnet. */
  lemma BlankIsNeither()
    ensures ParseIPv4("").Malformed? && forall s: GoString :: TrimSpace(s) == "" ==> BackendSubnet(s).Malformed?
  {
    assert Split("", '.') == [""] && Split("", '/') == [""];
    assert ParseOctet("").Malformed?;
  }

  // ----- a range with an empty end

  /** A scope under its subnet's address, without a range. */
  function WithoutRange(s: Subnet, gateway: Ip): Scope
    requires s.prefix <= 32
  {
    Scope("7", Format(s.ip), "n", "", SubnetText(s), Format(gateway), "", "", 1, 3600, "Active")
  }

  lemma AddressIsItsId(ip: Ip, more: seq<GoString>)
    ensures DhcpExternalId([Format(ip)] + more) == Format(ip)
  {
    AddressText(ip);
  }

  lemma WithoutRangeIsTaken(s: Subnet, gateway: Ip, request: Scope)
    requires s.prefix <= 32 && TrimSpace(request.name) != "" && request.gateway == Format(gateway)
    requires BackendGateway(SubnetText(s), Format(gateway)) == Accepted
    ensures AgentTakes(Completed(WithoutRange(s, gateway), request))
  {
    var current := WithoutRange(s, gateway);
    BlankTrims(request.name);
    AgentAcceptsExactly(current, request);
    SubnetTextIsStrict(s);
    AddressText(s.ip);
    AddressIsItsId(s.ip, [current.subnet, current.id]);
    assert [Format(s.ip)] + [current.subnet, current.id] == [current.externalId, current.subnet, current.id];
  }

  lemma SubnetTextIsStrict(s: Subnet)
    requires s.prefix <= 32
    ensures Strict(SubnetText(s))
  {
    ParseOfSubnetText(s);
    ParsedIsStrict(SubnetText(s));
  }

  /** In every subnet, for a scope without a range, a request for a start alone: backend and agent take it
      and the range differs, but no command writes it, and the Windows scope does not match. */
  lemma HalfRangeIsNotWritten(s: Subnet, gateway: Ip, start: Ip)
    requires s.prefix <= 32 && BackendGateway(SubnetText(s), Format(gateway)) == Accepted
    ensures var current := WithoutRange(s, gateway);
            var next := Completed(current, current.(startRange := Format(start)));
            var w := WindowsScope("n", "", Format(gateway), 3600, "", "", "Active");
            && Matches(w, current) && AgentTakes(next) && RangeIsSkipped(current, next) && Changes(current, next) != {}
            && !Matches(Execute(w, Commands(Normalized(next), Changes(current, next))), next)
  {
    var current := WithoutRange(s, gateway);
    var request := current.(startRange := Format(start));
    var w := WindowsScope("n", "", Format(gateway), 3600, "", "", "Active");
    MatchesFields(w, current);
    AddressText(start);
    assert Trimmed("", IsSpace) && Trimmed("n", IsSpace);
    WithoutRangeIsTaken(s, gateway, request);
    assert RangeField in Changes(current, Completed(current, request));
    UpdateReachesTheRequest(w, current, request);
  }

  const NETWORK := Subnet(Ip(10, 0, 0, 0), 24)

  const ROUTER := Ip(10, 0, 0, 1)

  lemma RouterIsAccepted()
    ensures BackendGateway(SubnetText(NETWORK), Format(ROUTER)) == Accepted
  {
    BlockOf24();
    assert Uint32(NETWORK.ip) == 167772160 && Uint32(ROUTER) == 167772161;
    InsideIsAccepted(NETWORK, ROUTER, 167772160, 256);
  }

  lemma InsideIsAccepted(s: Subnet, gateway: Ip, network: int, size: nat)
    requires s.prefix <= 32 && size == BlockSize(s.prefix) && network == Uint32(s.ip) / size * size
    requires network < Uint32(gateway) < network + size - 1
    ensures BackendGateway(SubnetText(s), Format(gateway)) == Accepted
  {
    GatewayAcceptedExactly(s, gateway);
  }

  lemma BlockOf24()
    ensures BlockSize(24) == 256
  {
    assert Pow2(4) == 16;
    assert Pow2(8) == 16 * Pow2(4);
  }

  /** For example in 10.0.0.0/24 with the gateway 10.0.0.1, and the start 10.0.0.9 asked for. */
  lemma HalfRangeExample()
    ensures var current := WithoutRange(NETWORK, ROUTER);
            var next := Completed(current, current.(startRange := Format(Ip(10, 0, 0, 9))));
            var w := WindowsScope("n", "", Format(ROUTER), 3600, "", "", "Active");
            && Matches(w, current)
            && BackendGateway(current.subnet, next.gateway) == Accepted && AgentTakes(next)
            && RangeIsSkipped(current, next)
            && Changes(current, next) != {}
            && !Matches(Execute(w, Commands(Normalized(next), Changes(current, next))), next)
  {
    RouterIsAccepted();
    HalfRangeIsNotWritten(NETWORK, ROUTER, Ip(10, 0, 0, 9));
  }
}
