# ZoneLease: a verified model

ZoneLease manages Windows DNS and DHCP servers through agents. Its backend keeps a snapshot of zones,
records, scopes and leases in a database, validates and forwards edits to the agents, and refreshes the
snapshot later. This project models the parts of it that carry state or algorithms and proves what they
are for:

- the delayed, merging refresh scheduler, as a machine whose steps are the critical sections of its mutex
  and the expiries of its timers (`RefreshTarget`, `RefreshProtocol`, `RefreshScheduler`, `RefreshRuns`,
  `RefreshHistory`);
- the DNS record handlers, the rules they keep in the forward zones, also when requests overlap, and the
  pairing of A and PTR rows (`DnsNames`, `PtrNames`, `DnsRecords`, `DnsHandlers`, `DnsZoneRules`,
  `DnsOverlap`, `DnsTwoCreates`, `DnsPtrNames`, `DnsPairing`, `DnsPairingRuns`, `DnsNesting`,
  `DnsOverlapPairing`, `DnsOutcomes`);
- the replacement of stored snapshots by what the agents report (`SnapshotTables`, `DhcpSnapshot`,
  `DhcpContents`, `DhcpTransactions`, `DnsSnapshot`, `DnsContents`);
- the codecs and address checks, several of them written twice, in the backend and in an agent
  (`ResourceIds`, `Ipv4`, `DhcpAddresses`, `PtrNames`);
- the health state of the agents with its notifications, the editing of DHCP scopes, and the saving back
  of redacted settings (`AgentHealth`, `ScopeUpdate`, `ConfigSaveBack`, `ConfigContents`).

Objects that the program updates in place are classes (the scheduler with its entries and the timer
runtime, the record store and its router, the snapshot stores, the health store); loops are methods with
invariants. Each method is proved against a function of values, and the properties are proved about those
functions, over single calls and over whole runs; `DnsOutcomes`, `DhcpContents`, `DnsContents` and
`ConfigContents` say what those functions leave behind, field by field and without them. What other systems answer - the agent's results and
warnings, whether a server is there and free, which timer expires, which statement of a transaction
fails, what the clock and the number parser say - is an input, so the results hold for every answer.

`dafny verify dfyconfig.toml` checks everything.

Some properties are false of the code as it is; the model keeps the code, and lemmas give an input that
fails and the exact condition under which the property holds:

- an edit keeps the zone rules: exactly when it is no re-key (`DnsZoneRules.RekeyExample`,
  `DnsZoneRules.UpdateKeepsTidyExactly`);
- overlapping requests keep them: exactly when each write fits when it happens
  (`DnsTwoCreates.OverlapExample`, `DnsOverlap.OverlapIsTidyExactly`, `DnsTwoCreates.TwoCreatesExactly`);
- PTR rows are the images of A rows: exactly when no forward zones are nested where a reverse zone is
  stored (`DnsNesting.OneHostLosesPtr`, `DnsNesting.ImageExactlyUnnested`);
- overlapping requests leave no PTR row without an A row: exactly when each write keeps the A rows of PTR
  rows when it happens (`DnsOverlapPairing.OverlapOrphansPtr`, `DnsOverlapPairing.OverlapIsSourcedExactly`);
- the agent's name translation absorbs the backend's: exactly where the zone has no final dot, which the
  program trims from the zones it creates, or the name is no address of the zone
  (`PtrNames.FinalDotExample`, `PtrNames.AgentAbsorbsBackend`);
- backend and agent parse the same subnets and judge gateways alike: exactly on strict texts
  (`DhcpAddresses.BackendParsesMore`, `DhcpAddresses.AgentParsesExactly`,
  `DhcpAddresses.GatewayChecksAgree`);
- a commit is of a dirty entry: exactly when the key was marked since the last commit
  (`RefreshProtocol.EscapedCallbackCommitsCleanEntry`, `RefreshProtocol.DirtyExactlySinceMark`);
- a commit is of the target named last: exactly when nothing was named since its callback was armed, or that
  target was named last (`RefreshProtocol.EscapedCallbackCommitsOldTarget`,
  `RefreshProtocol.CapturedIsLastExactly`);
- replacing one server's zones leaves the others' alone: exactly when no listed ID is theirs, as with the
  IDs the synchronization gives (`DnsSnapshot.ListedIdTakesZone`, `DnsSnapshot.OtherServersUnchanged`);
- applying a scope snapshot again changes nothing: exactly when its external ID, ID, subnet and name are not
  all blank, which no scope of a DHCP server is (`DhcpSnapshot.KeylessExample`, `DhcpSnapshot.ReapplyExactly`,
  `DhcpSnapshot.KeyOfScope`);
- a scope edit reaches the requested scope: except exactly where the range changes and an end is empty
  (`ScopeUpdate.HalfRangeExample`, `ScopeUpdate.UpdateReachesTheRequest`, `ScopeUpdate.RequestIsReached`);
- one notification for each offline episode: exactly but for reminders by manual synchronization
  (`AgentHealth.ReminderExample`, `AgentHealth.NotificationsMatchEpisodes`).

## Model

| member | source | states |
|---|---|---|
| `RefreshTarget.KeyIdentifiesResource` | backend/api/router/operation_refresh.go:174-189 | two targets share a merge key exactly when they agree on kind, server and resource name, given server identifiers without a colon |
| `RefreshTarget.ColonsMakeKeysAmbiguous` | backend/api/router/operation_refresh.go:174-189 | what the previous row assumes is needed: with a colon in a server identifier, which a UUID never has, two resources could share a key |
| `RefreshScheduler.OperationRefreshScheduler.BeginOperation` | backend/api/router/operation_refresh.go:50-66 | `begin` as one step of its key's machine, and no change to any other key; nothing without a key |
| `RefreshScheduler.OperationRefreshScheduler.FinishOperation` | backend/api/router/operation_refresh.go:68-86 | `finish` likewise, with its guards for a missing entry and a counter that is not positive |
| `RefreshScheduler.OperationRefreshScheduler.MarkTargetDirty` | backend/api/router/operation_refresh.go:88-100 | `markDirty` likewise; an idle entry is armed at once |
| `RefreshScheduler.OperationRefreshScheduler.StateForLocked` | backend/api/router/operation_refresh.go:102-110 | the key's entry, created if missing, takes the new target; other keys keep theirs |
| `RefreshScheduler.OperationRefreshScheduler.ArmLocked` | backend/api/router/operation_refresh.go:112-121 | the entry's timer is stopped and replaced by a fresh one whose callback has captured the current target |
| `RefreshScheduler.OperationRefreshScheduler.FireCallback` | backend/api/router/operation_refresh.go:123-136 | `fire` up to the unlock: nothing without an entry; while operations are open the entry keeps target, counter and dirt and gets a fresh timer armed with its target; otherwise the entry goes and the refresh is attempted |
| `RefreshScheduler.OperationRefreshScheduler.ExpireCallback` | backend/api/router/operation_refresh.go:112-121 | an expiring timer changes only who may stop its callback |
| `RefreshProtocol.InvNext` | backend/api/router/operation_refresh.go:50-136 | the inductive invariant of one key is kept by every step of every interleaving |
| `RefreshProtocol.CounterIsExact` | backend/api/router/operation_refresh.go:50-86 | in every reachable state `active` is the number of open operations, no callback commits while one is open, the guards of `finish` are never taken, and commits never outnumber entries created |
| `RefreshProtocol.NoMarkIsLost` | backend/api/router/operation_refresh.go:88-136 | after a mark every later state holds a dirty entry or a later callback has committed, and an idle dirty entry has a live callback |
| `RefreshProtocol.EachEventLeaves` | backend/api/router/operation_refresh.go:50-136 | what each event leaves of entry, timers and counters of its key, clause by clause and without the functions that compute it |
| `RefreshProtocol.FireCommitsOrRearms` | backend/api/router/operation_refresh.go:123-136 | over every run: a callback that finds an entry commits it, or leaves it unchanged but for a new live timer that holds its target, all other callbacks staying |
| `RefreshProtocol.RearmedEntryIsRemoved` | backend/api/router/operation_refresh.go:112-136 | from such a fire on, until another operation begins, an entry that is still there holds a live callback, and when everything has run out no entry is left |
| `RefreshProtocol.DrainStepSpends` | backend/api/router/operation_refresh.go:68-136 | each finish, expiry and callback of a drain lowers a budget read off the state |
| `RefreshProtocol.DrainCommitsOnce` | backend/api/router/operation_refresh.go:68-136 | with no new work a run ends within the budget, leaves nothing dirty and no callback, and commits a dirty entry exactly once |
| `RefreshProtocol.PromptCallbacksCommitTheLastMark` | backend/api/router/operation_refresh.go:102-136 | when Stop always wins there is at most one live callback, it commits a dirty entry with the last target, and re-arming is unreachable |
| `RefreshProtocol.DirtyExactlySinceMark` | backend/api/router/operation_refresh.go:88-136 | over every run, late callbacks included: the entry a callback finds is dirty exactly when the key was marked since its last commit |
| `RefreshProtocol.CapturedIsLastExactly` | backend/api/router/operation_refresh.go:102-136 | a live callback holds the target named last exactly when no begin or mark followed its arming or the last of them named that target; in particular when none named another |
| `RefreshProtocol.AnotherTargetMayPass` | backend/api/router/operation_refresh.go:102-121 | another target may be named in between, as in A, B, A |
| `RefreshProtocol.EscapedCallbackCommitsOldTarget` | backend/api/router/operation_refresh.go:112-136 | for example, a callback that escaped Stop can commit A when B was named last |
| `RefreshProtocol.EscapedCallbackCommitsCleanEntry` | backend/api/router/operation_refresh.go:112-136 | for example, a callback that escaped Stop can commit an entry nobody marked |
| `RefreshRuns.KeysRunAlone` | backend/api/router/operation_refresh.go:28-40 | in a run of the whole scheduler each key goes through a run of its own machine |
| `RefreshRuns.SchedulerIsSafe` | backend/api/router/operation_refresh.go:50-136 | over every run of the scheduler: exact counters, no commit during an operation, refreshes only of targets with the key, no lost callback |
| `RefreshRuns.SchedulerDrains` | backend/api/router/operation_refresh.go:68-136 | however drains of different keys interleave, the scheduler stops within the sum of their budgets |
| `RefreshRuns.SchedulerDrainsClean` | backend/api/router/operation_refresh.go:68-136 | draining from any reachable state: a key that can do no more holds nothing dirty and no callback, and what was dirty has been committed exactly once |
| `RefreshHistory.RecordedScheduler.Begin` | backend/api/router/operation_refresh.go:50-66 | each critical section of the scheduler is one step of the runs above: its map and timers are always the state a legal run leads to |
| `RefreshHistory.RecordedScheduler.Finish` | backend/api/router/operation_refresh.go:68-86 | likewise, for an operation that is open |
| `RefreshHistory.RecordedScheduler.MarkDirty` | backend/api/router/operation_refresh.go:88-100 | likewise |
| `RefreshHistory.RecordedScheduler.Expire` | backend/api/router/operation_refresh.go:112-121 | likewise |
| `RefreshHistory.RecordedScheduler.Fire` | backend/api/router/operation_refresh.go:123-136 | likewise; and at a commit no operation of the key is open, the target has the key, and the entry is dirty exactly when the key was marked since its last commit |
| `ResourceIds.EncodeResourceID` | backend/internal/repository/ids.go:45-51 | the loop gives the base64url texts of the parts joined by dots |
| `ResourceIds.DecodeResourceID` | backend/internal/repository/ids.go:16-59 | both decoders: the wrong number of parts or a part that does not decode is an error, otherwise the decoded parts |
| `ResourceIds.DecodeOfEncode` | backend/internal/repository/ids.go:45-59 | decoding undoes encoding for every byte string (sections 3.2 and 5 of RFC 4648) |
| `ResourceIds.GroupIsOneNumber` | backend/internal/repository/ids.go:45-51 | the digits of a group write the number of its bytes, high bits first (section 4 of RFC 4648) |
| `ResourceIds.DigitsAreTheTable` | backend/internal/repository/ids.go:45-51 | in the URL-safe alphabet of table 2 of RFC 4648 |
| `ResourceIds.EncodeOfDecode` | backend/internal/repository/ids.go:53-59 | a text that decodes is the encoder's own exactly when it has no line break and no stray bits |
| `ResourceIds.PartsRoundTrip` | backend/internal/repository/ids.go:8-59 | every list of parts, empty ones included, comes back at its own arity and decodes at no other, so no record ID is a zone ID |
| `ResourceIds.ResourceIdIsInjective` | backend/internal/repository/ids.go:8-51 | equal identifiers have equal parts |
| `ResourceIds.CanonicalIds` | backend/internal/repository/ids.go:16-59 | an identifier that decodes is the encoder's own exactly when each part's text is |
| `Ipv4.DottedQuadIsCanonical` | dhcp-agent/internal/dhcp/powershell.go:942-988 | the dotted quads that parse are exactly the ones Go prints |
| `Ipv4.MaskedIsWordAnd` | dhcp-agent/internal/dhcp/powershell.go:961-988 | masking byte by byte is the conjunction of the big-endian words |
| `Ipv4.NetworkOf` | backend/api/router/resources.go:563-571 | masking with a prefix gives the largest multiple of the block size not above the address (section 3.1 of RFC 4632) |
| `Ipv4.BroadcastOf` | backend/api/router/resources.go:570-573 | the broadcast word is the last address of the block |
| `DhcpAddresses.BackendParsesWhatAgentParses` | backend/api/router/resources.go:577-595 | whatever subnet text the agent parses, the backend parses to the same subnet |
| `DhcpAddresses.BackendSubnetExactly` | backend/api/router/resources.go:577-595 | a text with one slash is parsed from both sides of it, white space around each aside, with prefixes of 0 to 32 |
| `DhcpAddresses.OneSlashIsNeeded` | backend/api/router/resources.go:577-580 | and every other text is refused |
| `DhcpAddresses.AgentParsesExactly` | backend/api/router/resources.go:577-595 | of the subnet texts the backend parses, the agent parses exactly those with one slash, no white space before it and nothing but digits after it |
| `DhcpAddresses.BackendParsesMore` | backend/api/router/resources.go:589-593 | for example, the backend reads "8x" after the slash as 8 |
| `DhcpAddresses.GatewayChecksAgree` | dhcp-agent/internal/dhcp/powershell.go:871-890 | for every subnet and gateway text the two checks give one verdict exactly when the gateway is no address, or the backend cannot parse the subnet, or its text is of that strict form |
| `DhcpAddresses.GatewayAcceptedExactly` | backend/api/router/resources.go:550-575 | both accept for a.b.c.d/p exactly the addresses strictly between network and broadcast address, hence none for p of 31 or 32 |
| `DhcpAddresses.InSubnetExactly` | dhcp-agent/internal/dhcp/powershell.go:961-980 | the masked comparison accepts exactly the inner addresses of the block |
| `DhcpAddresses.VerdictExactly` | backend/api/router/resources.go:550-575 | and gives the reason for each other one: outside the block, or its first or last address |
| `DhcpAddresses.GatewayVerdict` | backend/api/router/resources.go:550-575 | before that: a blank text, a text that is no address, and a subnet that does not parse, in that order |
| `DhcpAddresses.ScanIntExactly` | backend/api/router/resources.go:589-593 | what is read after the slash: a sign or none and all the digits there are, whatever follows |
| `DhcpAddresses.RangeAcceptedExactly` | dhcp-agent/internal/dhcp/powershell.go:942-959 | the agent accepts exactly the texts of a start and an end in the block of the subnet, the start not above the end |
| `DhcpAddresses.AcceptedRangeIsInside` | dhcp-agent/internal/dhcp/powershell.go:942-959 | every address between the ends of a range the agent accepts lies in the block of the subnet, all given as texts |
| `DhcpAddresses.RangesAreInsideIffContiguous` | dhcp-agent/internal/dhcp/powershell.go:942-959 | of masks in general that holds exactly for those of a prefix, which are the only ones the callers pass |
| `DhcpAddresses.ConvertMaskToPrefix` | dhcp-agent/internal/dhcp/powershell.go:81-98 | the bit loop succeeds exactly on contiguous masks and gives back the prefix they come from |
| `DhcpAddresses.LeadingOnesAreCIDRMasks` | dhcp-agent/internal/dhcp/powershell.go:81-98 | a mask has p leading ones and no others exactly when it is the mask of prefix p |
| `DhcpAddresses.MaskPrefixInverts` | dhcp-agent/internal/dhcp/powershell.go:851-858 | the prefix text of a prefix's mask is that prefix |
| `DhcpAddresses.OtherMasks` | dhcp-agent/internal/dhcp/powershell.go:851-858 | of other masks it is zero, and of what is no mask nothing |
| `DhcpAddresses.NormalizedSubnetIsTheSame` | dhcp-agent/internal/dhcp/powershell.go:810-848 | the subnet text put together from address and mask stands for the subnet that was parsed |
| `PtrNames.RelativeOctet` | dns-agent/internal/dns/powershell.go:381-403 | the loops over labels and octets give the first octet after the network's, for an address that begins with the network's one to three octets |
| `PtrNames.AgentAbsorbsBackend` | backend/api/router/dns_record_validation.go:192-224 | the agent's translation after the backend's is the agent's alone, except exactly where the zone ends with a dot and the name reads as an address of it |
| `PtrNames.FinalDotExample` | backend/api/router/dns_record_validation.go:192-224 | for example any address in its own zone written with a final dot; the program trims that dot from the zones it creates |
| `PtrNames.NamesThatStay` | backend/api/router/dns_record_validation.go:192-224 | records of other types, and names that are no address, keep their trimmed names; the agent also drops outer dots |
| `PtrNames.AgentIgnoresOuterDots` | dns-agent/internal/dns/powershell.go:375-403 | however many dots are around a name, the agent translates it alike |
| `PtrNames.AgentOnAddress` | dns-agent/internal/dns/powershell.go:375-403 | in a three-octet zone (section 3.5 of RFC 1035) the agent turns an address of the zone into its last octet and leaves other addresses |
| `PtrNames.BackendOnAddress` | backend/api/router/dns_record_validation.go:192-224 | and so does the backend |
| `PtrNames.DisplayAndTranslate` | dns-agent/internal/dns/powershell.go:129-134 | displaying an octet and translating the displayed name undo each other, in both implementations |
| `PtrNames.RoundTripExactlyForOctets` | dns-agent/internal/dns/powershell.go:129-134 | among names of digits the round trip holds exactly for canonical octets |
| `DnsNames.IsValidDNSLabel` | backend/api/router/dns_record_validation.go:153-167 | accepts exactly labels of 1 to 63 letters, digits and hyphens without edge hyphens |
| `DnsNames.IsValidCNAMEValue` | backend/api/router/dns_record_validation.go:135-151 | accepts exactly the values that, trimmed, are absolute names of such labels with at most 253 bytes before the final dot |
| `DnsNames.FQDNAcceptedExactly` | backend/api/router/dns_record_validation.go:177-190 | the name built from a valid zone and record name is accepted exactly when its length fits |
| `DnsHandlers.RecordStore.UpsertDNSRecord` | backend/internal/repository/dns.go:217-242 | the row is written under its ID with a default TTL, if its zone exists |
| `DnsHandlers.RecordStore.DeleteDNSRecord` | backend/internal/repository/dns.go:244-253 | the row with the ID goes, and no other |
| `DnsHandlers.RecordStore.ListDNSRecordsByZone` | backend/internal/repository/dns.go:85-103 | exactly the zone's rows, in some order |
| `DnsHandlers.Router.ValidateDNSRecordCreate` | backend/api/router/dns_record_validation.go:13-57 | accepts exactly when the zone is a stored forward zone, no row of it clashes and the value is valid |
| `DnsOutcomes.CreateAllowedExactly` | backend/api/router/dns_record_validation.go:13-57 | in a forward zone, with a good value, a create may stand exactly when every row of the zone may stand beside it by the DNS rules |
| `DnsHandlers.Router.ValidateDNSRecordUpdate` | backend/api/router/dns_record_validation.go:77-125 | accepts exactly when the early return applies, or the value is valid and no other row clashes |
| `DnsOutcomes.UpdateAllowedExactly` | backend/api/router/dns_record_validation.go:77-125 | past the early return, with a good value, a change may stand exactly when every other row of the zone may stand beside the row with its new value |
| `DnsOutcomes.SameKinds` | backend/api/router/dns_record_validation.go:26-33 | types are compared up to case and outer white space |
| `DnsHandlers.Router.DnsRecordCreateWarnings` | backend/api/router/dns_record_validation.go:59-75 | warns exactly when a PTR row is asked for and the value or the reverse zone does not allow one |
| `DnsOutcomes.WarnsExactly` | backend/api/router/dns_record_validation.go:59-75 | for an A record that asks: exactly when its value is no address, or the server stores no reverse zone of the address |
| `DnsHandlers.Router.RelatedPTRRecord` | backend/api/router/resources_dns_records.go:377-399 | a matching PTR row if there is one, none otherwise |
| `DnsHandlers.Router.CreateDNSRecord` | backend/api/router/resources_dns_records.go:33-109 | the new tables are those of the create step, for every answer of the agent |
| `DnsOutcomes.CreateOutcome` | backend/api/router/resources_dns_records.go:33-109 | which creates are taken, and then, row by row and field by field: the new row, its PTR row exactly when it can point and nothing warns, and every other row as it was |
| `DnsHandlers.Router.UpdateDNSRecord` | backend/api/router/resources_dns_records.go:195-346 | the new tables are those of the update step, for every answer of the agent |
| `DnsOutcomes.UpdateOutcome` | backend/api/router/resources_dns_records.go:195-346 | which updates are taken, and then: the row under its new ID with the new value and the PTR flag asked for, its old row and old PTR row gone, its new PTR row there as flag, zone and warnings say, and every other row as it was |
| `DnsOutcomes.FlagDecidesPtr` | backend/api/router/resources_dns_records.go:253-333 | where rows are paired, an update without warnings leaves the PTR row of the new address exactly when the flag, as asked for or kept, is set |
| `DnsHandlers.Router.DeleteDNSRecord` | backend/api/router/resources_dns_records.go:111-193 | the new tables are those of the delete step with the related row the search found |
| `DnsOutcomes.DeleteOutcome` | backend/api/router/resources_dns_records.go:111-193 | a ready delete takes the row exactly for A and CNAME in forward-named and PTR in reverse-named zones, with an A row the related row, and leaves every other row |
| `DnsOutcomes.ReverseNamedExactly` | backend/api/router/resources_dns_records.go:482-484 | a zone is reverse-named exactly when its name, without outer white space and dots, ends in ".in-addr.arpa" in either case |
| `DnsZoneRules.FieldsOfId` | backend/internal/repository/ids.go:29-43 | a row's ID decodes to its own server, zone, type, name and value |
| `DnsZoneRules.CreateKeepsTidy` | backend/api/router/resources_dns_records.go:86-94 | a create keeps the rules of the forward zones |
| `DnsZoneRules.UpdateWrites` | backend/api/router/resources_dns_records.go:238-333 | what an accepted update writes: the row with the trimmed value and its own ID, TTL kept, and which PTR rows go and come |
| `DnsZoneRules.UpdateKeepsTidyExactly` | backend/api/router/dns_record_validation.go:87-89 | an accepted update of a forward zone's row keeps the rules exactly when it is no re-key (a new text equal to the old one up to case and outer white space) |
| `DnsZoneRules.RekeysAreAccepted` | backend/api/router/dns_record_validation.go:87-89 | every re-key passes the early return |
| `DnsZoneRules.RekeyExample` | backend/api/router/resources_dns_records.go:243-323 | editing the CNAME value "X." to "x." leaves two rows that say the same |
| `DnsZoneRules.RunKeepsTidy` | backend/api/router/resources_dns_records.go:33-346 | over every run of whole requests without re-keys: CNAME exclusivity (section 3.6.2 of RFC 1034, section 10.1 of RFC 2181), no duplicates, self-describing IDs |
| `DnsOverlap.StatementsMakeTheStep` | backend/api/router/resources_dns_records.go:33-346 | the writes a request decides on, made at once, are its step |
| `DnsOverlap.RunIsAnOverlap` | backend/api/router/resources_dns_records.go:33-346 | a run of whole requests is one of the overlapping runs |
| `DnsOverlap.OverlapKeepsSpelled` | backend/internal/repository/ids.go:29-43 | however requests overlap, every row's ID spells its zone, type, name and value |
| `DnsOverlap.LateWriteKeepsTidyExactly` | backend/api/router/resources_dns_records.go:62-87 | a write made after its check keeps the zone rules exactly when it still fits |
| `DnsOverlap.OverlapIsTidyExactly` | backend/api/router/resources_dns_records.go:33-346 | over every overlapping run the zone rules hold all along exactly when every write fits when it happens |
| `DnsTwoCreates.TwoCreatesExactly` | backend/api/router/resources_dns_records.go:62-87 | two creates accepted before either writes, in whatever order they write, keep the rules exactly when their zones differ, or they are the same letter for letter, or the records may stand side by side |
| `DnsTwoCreates.OverlapExample` | backend/api/router/dns_record_validation.go:13-57 | an A and a CNAME create for one name, both accepted, break CNAME exclusivity in whatever order they write |
| `DnsPtrNames.SamePtrValue` | backend/api/router/dns_record_validation.go:177-190 | equal PTR values come from nested zones, and in one zone from equal names |
| `DnsPtrNames.PtrRowOfAddress` | backend/api/router/dns_record_validation.go:226-245 | the PTR row of an A record is in its address's zone under the name a listing shows, which both translations turn into the last octet |
| `DnsPairing.OneSource` | backend/api/router/dns_record_validation.go:226-245 | A rows with one PTR row that can be stored are one row, in plain unnested forward zones |
| `DnsPairing.LinkedMeansImage` | backend/api/router/resources_dns_records.go:88-94 | the pairing invariant says that the PTR rows of the stored reverse zones are exactly the images of the A rows that ask for one |
| `DnsPairingRuns.CreateKeepsLinked` | backend/api/router/resources_dns_records.go:86-94 | a create keeps the pairing |
| `DnsPairingRuns.UpdateKeepsLinked` | backend/api/router/resources_dns_records.go:253-333 | an update keeps the pairing |
| `DnsPairingRuns.DeleteKeepsLinked` | backend/api/router/resources_dns_records.go:145-184 | a delete keeps the pairing; a related row it removes is the record's own PTR row |
| `DnsPairingRuns.NoOrphanPtrRows` | backend/api/router/resources_dns_records.go:33-346 | over every covered run, whatever the agent answers, every PTR row is the image of an A row that asks for it |
| `DnsPairingRuns.PtrRowsAreTheImage` | backend/api/router/resources_dns_records.go:33-346 | when nothing warns, the PTR rows are exactly the images of the A rows that ask for one, as far as their reverse zones are stored |
| `DnsPairingRuns.NoRecordsAreUnpaired` | backend/api/router/resources_dns_records.go:33-109 | a store without records is a state the pairing may start from |
| `DnsPairingRuns.NestedZonesShareAPtr` | backend/api/router/dns_record_validation.go:177-190 | in nested zones two names are one full name, so two A rows share a PTR row |
| `DnsPairingRuns.SharedPtrIsLost` | backend/api/router/resources_dns_records.go:145-184 | deleting one of two rows that share a PTR row takes it from the other |
| `DnsNesting.OneHostLosesPtr` | backend/api/router/resources_dns_records.go:33-193 | from zones without records: wherever two rows of different names spell one host, creating both and deleting the first is a run without a warning after which the other asks for a PTR row that is gone |
| `DnsNesting.ImageExactlyUnnested` | backend/api/router/resources_dns_records.go:33-346 | the PTR rows are the images after every covered run exactly when no forward zone lies in another on a server that stores the reverse zone of some address |
| `DnsNesting.EdgeDotsLosePtr` | backend/api/router/dns_record_validation.go:177-190 | names with a dot at an end break the pairing wherever a PTR row can be stored: "w" and ".w" are one host |
| `DnsOverlapPairing.LateWriteKeepsSourcedExactly` | backend/api/router/resources_dns_records.go:33-346 | a write made after its check leaves no PTR row without its A row exactly when it takes none its A row and brings none without one |
| `DnsOverlapPairing.OverlapIsSourcedExactly` | backend/api/router/resources_dns_records.go:33-346 | over every overlapping run that keeps the zone rules and names its A rows plainly, no PTR row is ever an orphan exactly when every write is of that kind when it happens |
| `DnsOverlapPairing.OverlapOrphansPtr` | backend/api/router/resources_dns_records.go:86-94 | from zones without records, wherever a PTR row can be stored: a delete checked between the two writes of a create finds nothing related and leaves an orphan PTR row |
| `SnapshotTables.ReplaceIsLastWins` | backend/internal/repository/dhcp_sync.go:97-161 | after a replacement the owner's keyed rows are the last-wins map of the input, surviving keys keep row IDs, other owners and the unique index are kept |
| `SnapshotTables.ReplaceElsewhere` | backend/internal/repository/dhcp_sync.go:198-221 | row by row: other owners' rows are the same rows, and rows without a key are new |
| `SnapshotTables.ReplaceCurrent` | backend/internal/repository/dhcp_sync.go:97-161 | replacing rows by what they already say changes no row and no ID |
| `SnapshotTables.UpsertLoop` | backend/internal/repository/dhcp_sync.go:97-117 | a loop of upserts gives the table, the remembered IDs and nothing after a failing statement |
| `DhcpSnapshot.LeaseDuration` | backend/internal/repository/resources.go:273-290 | -1 seconds means no limit and 0 hours; otherwise both are positive and positive inputs are kept |
| `DhcpSnapshot.NormalizeLeaseDuration` | backend/api/router/resources.go:531-548 | the in-place steps compute the settled duration |
| `DhcpSnapshot.LeaseDurationIsSettled` | backend/internal/repository/resources.go:273-290 | normalizing twice is normalizing once, and exactly settled durations are left alone |
| `DhcpTransactions.DhcpStore.ReplaceDHCPScopeSnapshot` | backend/internal/repository/dhcp_sync.go:63-161 | the transaction does the snapshot step, after which the tables say what the reports say, or, if any of its statements fails, nothing; indexes and foreign keys are kept |
| `DhcpContents.SnapshotIsStored` | backend/internal/repository/dhcp_sync.go:63-161 | attribute by attribute: the scope's row and, for the last report of each range and address, the row of the exclusion, lease or reservation, with the defaults for blank texts; and no other rows of the scope |
| `DhcpTransactions.DhcpStore.ReplaceDHCPScopes` | backend/internal/repository/dhcp_sync.go:13-61 | the transaction does the step on a server's scopes, whose rows then say what is listed, or nothing |
| `DhcpContents.ScopesAreStored` | backend/internal/repository/dhcp_sync.go:13-61 | attribute by attribute: a row for each scope listed last under its key or without a key, and no other row of the server |
| `DhcpSnapshot.SnapshotStepIsValid` | backend/internal/repository/dhcp_sync.go:63-161 | unique indexes, fresh IDs and foreign keys are kept |
| `DhcpSnapshot.SnapshotContents` | backend/internal/repository/dhcp_sync.go:97-161 | the scope's exclusions, leases and reservations are exactly the last-wins maps of the input, with row IDs kept |
| `DhcpSnapshot.OtherScopesUntouched` | backend/internal/repository/dhcp_sync.go:198-221 | rows of other scopes are the same rows: none goes, changes or is added |
| `DhcpSnapshot.ReapplyChangesNothing` | backend/internal/repository/dhcp_sync.go:63-161 | applying a snapshot of a scope with a key again changes no row and no ID |
| `DhcpSnapshot.ReapplyExactly` | backend/internal/repository/dhcp_sync.go:63-161 | and so exactly when the scope has a key |
| `DhcpSnapshot.KeyOfScope` | backend/internal/repository/dhcp_sync.go:70-95 | a scope has a key unless its external ID, ID, subnet and name are all blank |
| `DhcpSnapshot.KeylessExample` | backend/internal/repository/dhcp_sync.go:70-95 | for example a scope with a description only, into any tables |
| `DhcpSnapshot.BlankScopeIsInserted` | backend/internal/repository/dhcp_sync.go:70-95 | a scope without a key is inserted anew each time |
| `DhcpSnapshot.SnapshotIgnoresTheClock` | backend/internal/repository/dhcp_sync.go:119-123 | the time of synchronization matters exactly to leases whose expiry does not parse |
| `DhcpSnapshot.SnapshotSetsView` | backend/internal/repository/dhcp_sync.go:63-161 | by natural keys a snapshot step sets its scope's answers and leaves every other scope's |
| `DhcpSnapshot.SnapshotsCommute` | backend/internal/repository/dhcp_sync.go:63-161 | snapshots of different scopes commute on the natural-key view |
| `DhcpSnapshot.ScopesAreTheList` | backend/internal/repository/dhcp_sync.go:13-61 | a server's scopes afterwards are exactly the ones listed, in their old rows, and what other servers' external IDs lead to is as before |
| `DhcpSnapshot.OtherServersScopesUntouched` | backend/internal/repository/dhcp_sync.go:13-61 | row by row: other servers' scopes, with an external ID or without, are the same rows |
| `DhcpSnapshot.ScopesSetView` | backend/internal/repository/dhcp_sync.go:13-61 | listed scopes keep their children, unlisted ones say nothing, other servers' say what they said |
| `DnsSnapshot.ZoneStore.ReplaceDNSZones` | backend/internal/repository/dns.go:143-171 | the transaction does the step on a server's zones or, on any failure, nothing |
| `DnsSnapshot.ZoneStore.ReplaceDNSZoneRecords` | backend/internal/repository/dns.go:184-215 | the transaction does the step on a zone's records or, on any failure, nothing |
| `DnsSnapshot.ZonesAreTheList` | backend/internal/repository/dns.go:143-171 | a server's zones afterwards are exactly the ones listed, and records go with their zones |
| `DnsContents.ZonesAreStored` | backend/internal/repository/dns.go:143-171 | attribute by attribute: the last zone listed for an ID is stored as listed, and the server has no other |
| `DnsContents.ZonesAreTakenExactly` | backend/internal/repository/dns.go:150-160 | a list is taken exactly when, zone by zone, the server has the name under no other ID |
| `DnsSnapshot.OtherServersUnchanged` | backend/internal/repository/dns.go:150-160 | other servers' zones are unchanged exactly when no listed ID is one of theirs |
| `DnsSnapshot.ListedIdTakesZone` | backend/internal/repository/dns.go:150-160 | for example, a zone listed under another server's ID moves to the listing server; the only caller lists its own IDs |
| `DnsSnapshot.SynchronizedZones` | backend/internal/service/sync/service.go:836-848 | with the IDs the synchronization gives the replacement always succeeds and touches no other server |
| `DnsSnapshot.RecordsAreTheList` | backend/internal/repository/dns.go:184-215 | replacing a zone's records succeeds exactly when its name is free and the IDs are distinct and unused elsewhere; then its rows are the ones listed |
| `DnsContents.RecordsAreStored` | backend/internal/repository/dns.go:184-215 | attribute by attribute: a row for each record listed, with the default ID and TTL where it has none, no other row of the zone, and the zone itself |
| `DnsSnapshot.SynchronizedRecords` | backend/internal/service/sync/dns_ptr.go:132-147 | with the IDs the synchronization fills in, for a zone stored already or new, the replacement succeeds exactly when no two records agree on type, name and value, and every ID still spells its fields |
| `AgentHealth.HealthStore.UpdateServerHealth` | backend/internal/repository/resources.go:148-190 | a success resets status and count; a failure counts, and sets the status only at the limit (3 where none is configured) |
| `AgentHealth.HealthStore.PingServer` | backend/api/router/resources_agents.go:247-268 | a manual or automatic ping is its step on status and notifications; `checkServerHealth` is the automatic one |
| `AgentHealth.HealthStore.SyncHealth` | backend/internal/service/sync/service.go:708-741 | the health part of a synchronization is its step |
| `AgentHealth.HealthStore.CreateNotificationIfUnreadMissing` | backend/internal/repository/notification_center.go:27-43 | one notification more exactly when none of the source is unread and shown |
| `AgentHealth.HealthStore.MarkNotificationRead` | backend/internal/repository/notification_center.go:86-99 | one shown notification is marked read; a dismissed or unknown one is not found |
| `AgentHealth.HealthStore.MarkAllNotificationsRead` | backend/internal/repository/notification_center.go:101-108 | marking all as read as its step |
| `AgentHealth.HealthStore.DismissNotifications` | backend/internal/repository/notification_center.go:110-117 | a clear as its step |
| `AgentHealth.UsersSee` | backend/internal/repository/notification_center.go:86-117 | notification by notification: after marking all as read what was shown is shown and read, after a clear nothing is shown, and marking one changes that one |
| `AgentHealth.CheckShows` | backend/internal/repository/notification_center.go:27-43 | and after a check: the server's own go when it is online, one waits unread when it has just gone offline or a manual synchronization fails, and no others change |
| `AgentHealth.HealthIsTheStreak` | backend/internal/repository/resources.go:144-190 | over every history the failure count is the length of the failure streak and the server is offline exactly when some check in it met its limit |
| `AgentHealth.OfflineAtTheLimit` | backend/internal/repository/resources.go:148-190 | a server goes offline with as many automatic failures in a row as the limit says, three where none is configured |
| `AgentHealth.OfflineByHand` | backend/api/router/resources_agents.go:247-268 | and with one failure of a check made by hand |
| `AgentHealth.NotificationsMatchEpisodes` | backend/internal/repository/notification_center.go:27-43 | a server that is not offline has no shown notification; every episode creates one, and the rest come from failed manual synchronizations |
| `AgentHealth.ManualFailureReminds` | backend/internal/service/sync/service.go:708-741 | they do: in every offline state, a failed manual synchronization after everything is read creates one more in the same episode |
| `AgentHealth.ReminderExample` | backend/internal/service/sync/service.go:708-741 | for example two notifications for one episode |
| `AgentHealth.OneNotificationPerEpisode` | backend/api/router/resources_agents.go:262-268 | over manual and automatic checks and all user actions, each offline episode creates exactly one notification |
| `ScopeUpdate.ChangedFields` | backend/api/router/resources_dhcp_update.go:111-133 | the list holds exactly the fields that differ up to trimming |
| `ScopeUpdate.UpdateScopeScript` | dhcp-agent/internal/dhcp/powershell.go:238-292 | the commands built for a list of fields; an empty list means all |
| `ScopeUpdate.CommandsPatch` | dhcp-agent/internal/dhcp/powershell.go:243-292 | running the commands sets exactly the listed fields, an unlimited lease included, and leaves the rest |
| `ScopeUpdate.CompletedIsSettled` | backend/api/router/resources_dhcp_update.go:54-68 | a completed request has a settled lease, a named state if that changes, and a whole range if the snapshot has one |
| `ScopeUpdate.UpdateReachesTheRequest` | backend/api/router/resources_dhcp_update.go:54-77 | from a Windows scope that matches the snapshot: an empty diff exactly when there is nothing to apply, and otherwise the commands make it match the completed request, except exactly where the range changes and one of its ends is empty |
| `ScopeUpdate.RequestIsReached` | backend/api/router/resources_dhcp_update.go:54-77 | against the request as it came: afterwards the Windows scope has its name, description, gateway and lease, its state and each end of the range where not blank and the old ones otherwise, except exactly a half range, which is kept; and the diff is empty exactly when it had all of that |
| `ScopeUpdate.UpdateNamesTheScope` | backend/api/router/resources_dhcp_update.go:54-57 | the update goes to what comes before the slash in the first of external ID, subnet and ID that is not blank |
| `ScopeUpdate.AgentLease` | dhcp-agent/internal/dhcp/powershell.go:243-292 | the agent sets the seconds it is sent, else the hours, else a day |
| `ScopeUpdate.HalfRangeIsNotWritten` | dhcp-agent/internal/dhcp/powershell.go:276-278 | in every subnet and for every accepted gateway: for a scope without a range, a request for a start alone is taken by backend and agent and is a change, but no command writes it |
| `ScopeUpdate.HalfRangeExample` | dhcp-agent/internal/dhcp/powershell.go:276-278 | for example in 10.0.0.0/24 with the gateway 10.0.0.1 |
| `ScopeUpdate.AgentAcceptsExactly` | backend/api/router/resources_dhcp_update.go:53-68 | a request whose gateway the backend lets pass is taken by the agent exactly when it has a name, the subnet's text is of the strict form above and the identifier the backend sends is an address, which it is when it comes from the subnet |
| `ConfigSaveBack.RemoveEmptyConfigValues` | backend/api/router/settings_helpers.go:92-197 | the recursive loop terminates on all nested JSON and computes the cleaned object |
| `ConfigSaveBack.RemoveEmptyTwice` | backend/api/router/settings_helpers.go:92-197 | cleaning twice is cleaning once, at any depth |
| `ConfigSaveBack.NothingEmptyIsLeft` | backend/api/router/settings_helpers.go:92-197 | no null, blank text, number that is not positive, empty list or empty object is left; in a list no null or blank text is left, while numbers, lists and objects inside it stay as they are |
| `ConfigContents.KeptExactly` | backend/api/router/settings_helpers.go:92-197 | a key stays exactly when there is something under it, at whatever depth, and with what is left of it: texts trimmed, list items that count in their order, all else unchanged |
| `ConfigSaveBack.RedactConfigSecrets` | backend/api/router/settings_secret_redaction.go:23-48 | each secret with a text is replaced by its presence marker |
| `ConfigSaveBack.RedactHides` | backend/api/router/settings_secret_redaction.go:23-48 | no secret's text is left, and no other text appears |
| `ConfigContents.RedactExactly` | backend/api/router/settings_secret_redaction.go:23-48 | key by key, when no secret has the name of a marker: markers of the secrets with a text are true, those secrets are gone, and all else is as it was |
| `ConfigContents.MarkerOf` | backend/api/router/settings_secret_redaction.go:56-62 | a marker is `has` and the trimmed name with a capital, or `hasSecret` |
| `ConfigSaveBack.SanitizeLDAPConfigWithPrevious` | backend/api/router/auth_providers.go:148-190 | the in-place steps compute the sanitized settings or reject them |
| `ConfigContents.SavedExactly` | backend/api/router/auth_providers.go:148-190 | an enabled configuration is saved exactly when host, base, filter, bind name and a password (given or previous) have text, not both TLS and StartTLS are on, and the port is positive; a disabled one always |
| `ConfigContents.SavedContents` | backend/api/router/auth_providers.go:148-190 | key by key: the obsolete keys and the marker are dropped, the password is the given or the previous one, and all else is what is left of what was given |
| `ConfigSaveBack.SaveBackFixedPoint` | backend/api/router/auth_providers.go:148-190 | saving the redacted form of an accepted enabled configuration against it gives it back, password included, and the form shows no password |
| `ConfigSaveBack.PasswordAfterSave` | backend/api/router/auth_providers.go:159-165 | a new password replaces the previous one, and without one the previous stays |

## Left out

- ParseIPv4: IPv4 addresses in IPv6 notation, which Go's parser also accepts, are not addresses here; only dotted quads are.
- TrimSpace, EqualFold, ToLower, ToUpper: white space and letter case beyond ASCII are not modelled.
- DisplayName: decimal digits outside ASCII, and a line break at the end of a name, which the script's patterns would admit, are not modelled.
- FireCallback: the model ends at the unlock. The refresh is then attempted; the lock, the running synchronization and the queue that may still skip it are not modelled, so convergence of snapshot and server is not claimed.
- ArmLocked: delays are not modelled; a timer may expire at any step.
- CreateDNSRecord, UpdateDNSRecord, DeleteDNSRecord: the scheduler calls they make, audit entries and response texts are left out, as are store errors other than a missing zone, which the handlers ignore.
- RunKeepsTidy: whole requests, one after another; `DnsOverlap` and `DnsTwoCreates` have them overlap. There the reads of one request are still taken at one moment, and the zones do not change.
- ZonesOk: a zone named in in-addr.arpa is taken to be marked as reverse. Creating a zone (backend/api/router/resources.go:30-80 and 597-607) makes a zone marked as reverse end in in-addr.arpa, but does not mark one that is named so and not marked; such a zone is not part of the DNS runs.
- NoOrphanPtrRows, PtrRowsAreTheImage, ImageExactlyUnnested: claimed for whole requests, one after another, in forward zones named without outer dots or white space, A names without edge dots (`EdgeDotsLosePtr` shows why), no re-keys and no edits of PTR rows. For overlapping requests `DnsOverlapPairing` treats orphans only, not missing PTR rows. A synchronization between the requests is not part of these runs.
- ReplaceDHCPScopeSnapshot, ReplaceDHCPScopes, ReplaceDNSZones, ReplaceDNSZoneRecords: the columns that hold synchronization times and states, the width of integer columns, a zone's type and dynamic-update setting, and the foreign key to the servers are left out; an error of any of them is a failing statement.
- LeaseDuration: hours and seconds are unbounded integers; the wrap-around of a product beyond 64 bits is not modelled.
- PingServer, SyncHealth: store calls succeed; registering and deleting servers, and the gap between check and insert of a notification under concurrent requests, are not modelled. A synchronization that skips its health check counts as a successful check, as in the code.
- SaveBackFixedPoint: JSON numbers are reals, and the text format of JSON is the identity. Saving back WeCom settings is left out: edge inputs break its fixed point.
- One- and two-octet reverse zones: what a name means there is not claimed; only that the two translations compose.
- HTTP routing, permissions, Swagger, logging, the frontend, PowerShell execution, sessions, password reset, TLS and the mail and chat notifiers: plumbing, or code outside the modelled files.
- Role lists, settings ranges and environment parsing: they would add only easy members.
