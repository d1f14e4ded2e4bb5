# VaultysClaw decision core, in Dafny

VaultysClaw decides what an actor may do. Most of those decisions are made by small
functions with strong promises, in Go (the SDK that runs beside a workload) and in
TypeScript (the control plane). This project models them in Dafny and proves the promises,
or the exact condition under which they hold. `dafny verify dfyconfig.toml` checks all of it.

| modules | what they model |
|---|---|
| `Glob`, `Authz` | certificate resolution and its `*` globs, as both languages run them |
| `Rules`, `RuleProperties`, `RuleMeaning` | deny-overrides evaluation with undecidable subjects, and the two rule matchers, also in the rules' own fields and characters |
| `RuleAuthoring`, `SignsImpliesLoads`, `AuthoringExact`, `KindConfig` | the authoring validator over untyped JSON, the signed payload, the Go loader, and the stored configs |
| `SingleFlight`, `CacheRuns` | the single-flight TTL cache, and every interleaving of callers, queries, failures, writes and invalidations |
| `KillSwitch`, `Suspension`, `Capability`, `LiveAnswers` | the kill switch table, the status overlay, `hasCapability`, the registry filter, and all of them read through the caches |
| `ActorGraph`, `GraphAssembly`, `GraphPromises`, `GraphFields` | the capped, ranked, induced relationship graph, also in its rows' own fields |
| `BreadthFirst`, `EgoCrawl`, `EgoTrim`, `EgoView` | the capped crawl over the tables, the trim of the drawn graph, and both together |
| `ClientQueue`, `Backoff` | the bounded telemetry queue and the reconnect loop |
| `Histogram` | the audit timeline's bars |
| `Envelope`, `SrtBlock` | the length-prefixed signed envelope and the srt settings editor |
| `Prelude`, `Arithmetic`, `Text`, `Json` | options, division in steps, ASCII text, JSON values |

Code that changes state step by step is a method or a class, proved against a function of
its inputs or of its old state; what the source promises is then proved about that
function, over all inputs and all runs.

## Where the code and its own words differ

The model follows the code. Each point below is a lemma with a concrete input, or an exact condition.

- A needed subject is documented to mean that looking would change the answer (`sdk-go/rules/rules.go:319-321`). It need not: an undecided allow beside a decided one is reported and changes nothing (`RuleProperties.NeededSubjectMayNotMatter`; exact condition in `LookingHelpsExactly`).
- `sdk-go/authz/resolve.go:4` calls the Go resolver a faithful port. It is one exactly for resources without a carriage return, which `.` matches in Go and not in JavaScript (`Authz.ResolversAgreeExactly`).
- `lib/proxy-rules.ts:117` promises to reject, at authoring time, a rule set the Go verifier would refuse. One whose `hosts` is a bare string is accepted, and a proxy config holding it parses, signs, and loads on no host (`KindConfig.StoredButNeverLoaded`; exact condition in `ProxyConfigsLoadExactly` and `SignsImpliesLoads.SignedSetsLoad`).
- `lib/kill-switch.ts:101-108` calls stale answers after an invalidation unacceptable. Invalidation does not clear the query in flight, so they happen exactly when one had already read the table (`CacheRuns.ReadAfterInvalidateExactly`; a run that gets there in `LiveAnswers.StaleAfterInvalidate`).
- `db/custom-capability.dao.ts:76-80` calls the TTL the worst-case window in which a deleted capability keeps resolving. The window is the TTL plus the longest query latency, and that bound is met (`LiveAnswers.SeenAfterWindow`, `WindowIsTight`).
- `lib/kill-switch.ts` and `db/kill-switch.dao.ts` describe suspension as reversible. Arm then disarm is a no-op exactly when the scope was not armed already, or a global switch covers it (`Suspension.ArmThenDisarmExactly`).
- `hasCapability` asks the kill switch only about the first granting certificate, so with a workspace armed the order of certificates can decide (`Suspension.OrderCanDecide`). It never does exactly when the certificates that grant are all suspended or all not (`OrderDecidesExactly`). It also never consults the capability registry, so an unregistered custom name can get a yes while no active status lists it (`UnregisteredYes`); a yes is listed by some active status exactly when the name survives the registry filter (`YesIsBackedByActiveStatus`).
- `MAX_BARS` is exceeded, by one bar, exactly when the rounded range is a positive multiple of 64 units (`Histogram.BuildBuckets`).
- `Run` is documented to back off with a cap. The cap does not bind the first wait, and the defaults never order the two delays, so it holds exactly when the base delay is within it (`Backoff.CapHonouredExactly`). Doubling stays inside int64, and the closed form holds, exactly when both delays are below 2^62 ns (`OverflowExactly`, `WaitClosedForm`).
- The Go envelope reader documents that at least one signature byte must follow; the TypeScript reader of the same format accepts none (`Envelope.ReadersDifferExactly`). The Go reader's uint32 index wraps, and it panics, on a declared length within 4 of 2^32 that the input holds (`PanicsExactly`); nothing else separates the two.
- The ego view is not the induced subgraph on what it shows: a link row between two actors both at the last hop is never fetched (`EgoView.BuildEgoGraph`).
- A comment at `lib/srt-block.ts:43-46` promises to keep unknown settings. Unknown keys are kept always; a `filesystem` or `network` that is not an object, and non-strings in managed lists, are not (`SrtBlock.RoundTripExactly`).

Paths above without a prefix are under `packages/controlplane/`.

## Model

| member | source | states |
|---|---|---|
| `Glob.MatchesPattern` | sdk-go/authz/resolve.go:222-237 | the loop that quotes each segment, then the regex test, decides `Accepts`; the regex text is built, read back and matched, not assumed |
| `Glob.QuotingIsInert` | sdk-go/authz/resolve.go:226-236 | the compile error is unreachable: for every pattern the quoted, joined text reads back as the literal segments with runs between them |
| `Glob.GlobMeaning` | sdk-go/authz/resolve.go:216-237 | a pattern accepts a value iff the value is its segments in order with line-break-free fillers between them; star-free patterns included |
| `Glob.SplitRejoins` | sdk-go/authz/resolve.go:226-226 | the segments are the pattern cut at every star: joined by stars they are the pattern again, and none holds a star |
| `Glob.FillersExactly` | sdk-go/authz/resolve.go:230-236 | a filler may hold every character but a newline, and in JavaScript a carriage return |
| `Glob.TailWildcard` | sdk-go/authz/resolve.go:216-237 | for every star-free text and every continuation, one trailing star admits it, slashes and all, iff it holds no newline, and in JavaScript no carriage return either |
| `Glob.GreedyDecidesGlob` | sdk-go/authz/resolve.go:222-237 | leftmost search without backtracking decides exactly the regex relation, for every pattern and value |
| `Glob.CollapsingStars` | sdk-go/authz/resolve.go:222-237 | collapsing runs of stars to one changes no decision |
| `Glob.TwinsAgreeExactly` | packages/trust/src/resolve-permission.ts:14-22 | the TypeScript matcher never accepts more than the Go one, and the two agree on a value for every pattern iff the value holds no carriage return |
| `Rules.Evaluate` | sdk-go/rules/rules.go:327-367 | the short-circuiting loop returns the order-free decision of the matching rules: verdict, attributed rule and needed subjects |
| `Rules.EvaluateResource` | sdk-go/rules/rules.go:382-420 | the same for resource rules |
| `RuleMeaning.EvaluateExactly` | sdk-go/rules/rules.go:327-367 | the outcome by the rules' fields: the first firing deny, else the first firing rule, else govern; a rule fires iff its ports admit the port (none listed admits all), some host pattern matches and its subject covers the attribution; without attribution the agent and workload subjects on target are reported |
| `RuleMeaning.EvaluateResourceExactly` | sdk-go/rules/rules.go:382-420 | the same for resource rules, on target iff some pattern is the resource, or a directory that is it or contains it |
| `RuleMeaning.RuleNamesItsHosts` | sdk-go/rules/rules.go:496-515 | a rule of plain lower-case host names contributes to the evaluation of a destination iff it lists that very host, and its port or no ports |
| `RuleMeaning.HostRuleLoadsExactly` | sdk-go/rules/rules.go:212-238 | when one host rule loads: known effect and subject, a workload named, hosts listed, none blank or a lone dot |
| `RuleMeaning.ResourceRuleLoadsExactly` | sdk-go/rules/rules.go:239-262 | when one resource rule loads |
| `Rules.CheckRulesMeans` | sdk-go/rules/rules.go:212-238 | the first-error loop over host rules succeeds iff every rule passes on its own |
| `Rules.CheckResourceRulesMeans` | sdk-go/rules/rules.go:239-262 | the same for resource rules |
| `RuleProperties.VerdictMeans` | sdk-go/rules/rules.go:317-367 | Deny iff some applicable matching rule denies, else Allow iff some applicable one matches, else Govern; the named rule is the first responsible one; needed subjects are exactly the undecided ones, without duplicates, and empty on Deny |
| `RuleProperties.OrderIndependence` | sdk-go/rules/rules.go:323-326 | two host rule lists with the same rules, in any order and multiplicity, give the same verdict and the same set of needed subjects |
| `RuleProperties.ResourceOrderIndependence` | sdk-go/rules/rules.go:369-420 | the same for resource rules |
| `RuleProperties.AttributionOnlyRefines` | sdk-go/rules/rules.go:473-487 | Deny without attribution stays Deny under any; Allow becomes only Allow or Deny; no needed subject means no attribution changes the verdict |
| `RuleProperties.SubjectMeans` | sdk-go/rules/rules.go:467-487 | whom each subject covers, and that only a scoped rule without attribution is undecided |
| `RuleProperties.UngovernedSeesOnlyAny` | sdk-go/rules/rules.go:480-482 | traffic known not to come from a governed agent gets the decision of the rules for everyone alone |
| `RuleProperties.LookingHelpsExactly` | sdk-go/rules/rules.go:319-321 | the exact condition under which some attribution changes the verdict |
| `RuleProperties.NeededSubjectMayNotMatter` | sdk-go/rules/rules.go:319-321 | a rule set that passes the load check and a destination at which it reports a needed subject, though no attribution changes the verdict: the comment there promises too much |
| `RuleProperties.ValidatedNeverNeeds` | sdk-go/rules/rules.go:297-315 | a set that passes `Validate(false)` never reports a needed subject, for hosts or resources |
| `RuleProperties.SubtreeMeans` | sdk-go/rules/rules.go:431-465 | `b/*` covers exactly `b` and what starts with `b/` |
| `RuleProperties.SiblingsStayOut` | sdk-go/rules/rules.go:442-449 | a sibling sharing a name prefix is never covered |
| `RuleProperties.ResourcePatternsAreLaminar` | sdk-go/rules/rules.go:456-465 | the match sets of any two resource patterns are nested or disjoint |
| `RuleProperties.HostPatternsAreLaminar` | sdk-go/rules/rules.go:517-542 | the match sets of any two host patterns are nested or disjoint |
| `RuleProperties.SubdomainsOnly` | sdk-go/rules/rules.go:519-531 | a dot pattern covers strict subdomains only: never the domain itself, never a name that merely ends alike |
| `RuleProperties.HostCaseIsIgnored` | sdk-go/rules/rules.go:521-534 | letter case matters on neither side, through trimming of spaces and of the final dot |
| `RuleMeaning.NamesMatchExactly` | sdk-go/rules/rules.go:517-542 | two host names match iff they agree character by character up to the case of letters |
| `RuleMeaning.LowerNamesMatchExactly` | sdk-go/rules/rules.go:524-541 | in lower case a pattern without a leading dot matches itself and nothing else |
| `RuleMeaning.DottedMatchExactly` | sdk-go/rules/rules.go:519-540 | a dot before a name matches exactly the names that end in it, dot included |
| `RuleMeaning.PaddingIsIgnored` | sdk-go/rules/rules.go:532-534 | blanks around a pattern and one trailing dot change nothing |
| `Text.TrimExactly` | sdk-go/rules/rules.go:533-534 | trimming leaves what stands between two runs of the six ASCII blanks |
| `RuleProperties.AcceptedPatterns` | sdk-go/rules/rules.go:264-295 | a pattern loads iff it is trimmed, a URI, and star-free or a single trailing `/*` that does not span a whole scheme |
| `RuleProperties.AcceptedMeaning` | sdk-go/rules/rules.go:456-465 | an accepted pattern matches itself only, or its base and everything beneath it |
| `RuleProperties.SubtreeAgainstGlob` | sdk-go/rules/rules.go:442-449 | on line-break-free resources an accepted subtree matches the certificate glob's set plus the directory itself |
| `RuleAuthoring.ValidateProxyRuleSet` | packages/controlplane/lib/proxy-rules.ts:125-221 | the two loops with their growing `seen` set throw exactly the first fault of the specification |
| `RuleAuthoring.AcceptanceMeans` | packages/controlplane/lib/proxy-rules.ts:125-221 | nothing is thrown iff every rule of both lists passes given the ids before it, over untyped JSON |
| `SignsImpliesLoads.PatternValidatorsAgree` | packages/controlplane/lib/proxy-rules.ts:223-256 | the TypeScript and Go resource-pattern validators give the same answer, fault for fault, on every ASCII string |
| `SignsImpliesLoads.SignedSetsLoad` | packages/controlplane/lib/proxy-rules.ts:265-297 | an accepted set, encoded with empty optionals omitted, decodes and passes the Go check iff each `hosts` is a list, and then equals what was authored field for field |
| `SignsImpliesLoads.BareStringHosts` | packages/controlplane/lib/proxy-rules.ts:159-177 | a set whose `hosts` is a bare string is accepted and signed, and loads nowhere |
| `SignsImpliesLoads.ScopedReportIsExact` | packages/controlplane/lib/proxy-rules.ts:351-360 | `subjectScopedRuleIds` is empty iff Go's `Validate(false)` succeeds on the set |
| `AuthoringExact.AuthoringIsExactlyStricter` | packages/controlplane/lib/proxy-rules.ts:113-221 | on well-typed sets the validator accepts iff the Go check does and the set has the right version, unique ids, named workloads, bare host names and real ports: nothing else separates the two |
| `AuthoringExact.SignedTypedSetReturns` | packages/controlplane/lib/proxy-rules.ts:265-297 | every well-typed set that loads and is authorable comes back from signing and loading as itself |
| `AuthoringExact.ScopedReportByRule` | packages/controlplane/lib/proxy-rules.ts:351-360 | the report is the ids of the scoped host rules, then of the scoped resource rules, one rule at a time |
| `SignsImpliesLoads.ScopedIdsSplit` | packages/controlplane/lib/proxy-rules.ts:353-358 | the report of two lists in a row is their reports in a row |
| `KindConfig.HarnessConfigsLoad` | packages/controlplane/lib/harness-kind.ts:101-148 | a harness config that parses keeps every stored rule and always yields a set that signs and loads, whenever it is signed |
| `KindConfig.ProxyConfigsLoadExactly` | packages/controlplane/lib/proxy-kind.ts:63-96 | a proxy config that parses yields a set that signs, and that loads iff each `hosts` is a list |
| `KindConfig.StoredButNeverLoaded` | packages/controlplane/lib/proxy-rules.ts:116-125 | the stored config with one bare-string rule parses and signs, and its set loads nowhere |
| `KindConfig.HarnessParsesExactly` | packages/controlplane/lib/harness-kind.ts:101-148 | a stored value parses iff it is nothing, or an object with known mode and sandbox, a numeric age and an acceptable rule list |
| `KindConfig.ProxyParsesExactly` | packages/controlplane/lib/proxy-kind.ts:63-96 | the same for proxies, whose age must be an integer |
| `KindConfig.HarnessFieldsExactly` | packages/controlplane/lib/harness-kind.ts:101-148 | a parsed config holds each stored field, and the default for each that is absent or null |
| `KindConfig.ProxyFieldsExactly` | packages/controlplane/lib/proxy-kind.ts:63-96 | the same for proxies; the listen address is the stored text trimmed, if it is not blank |
| `KindConfig.HarnessReparses` | packages/controlplane/lib/harness-kind.ts:101-148 | a parsed config, stored and read back at any later time, is itself |
| `KindConfig.ProxyReparses` | packages/controlplane/lib/proxy-kind.ts:91-95 | the same for proxies, trimmed listen address included |
| `Authz.ResolveMeans` | sdk-go/authz/resolve.go:136-214 | allowed iff some certificate is usable, capable and in scope; the reported one is the first such; a denial carries the right reason form |
| `Authz.GrantsExactly` | sdk-go/authz/resolve.go:167-214 | when one certificate grants: active, strictly before expiry, a use left, the capability listed, and unscoped or asked about its own resource or one its pattern's segments fill |
| `Authz.DenialNamesWhatWasAsked` | sdk-go/authz/resolve.go:152-165 | the two forms of a denial, an empty resource taking the short one |
| `Authz.OrderDoesNotDecide` | sdk-go/authz/resolve.go:127-150 | the decision depends only on which certificates are held |
| `Authz.StepMoves` | sdk-go/authz/resolve.go:129-133 | an add never removes permission and gives it only if the added certificate grants; revoke, supersede, use and time never give it |
| `Authz.EventsBite` | sdk-go/authz/resolve.go:167-180 | a retirement, a use that reaches the limit and an advance that reaches the expiry each make the certificate unusable, and leave the others alone |
| `Authz.UnusableForGood` | sdk-go/authz/resolve.go:167-180 | over any run a certificate once unusable stays so |
| `Authz.PermissionNeedsAnAdd` | sdk-go/authz/resolve.go:129-133 | over any run, between a denied and an allowed state lies an add of a certificate that grants, at which the answer flipped |
| `Authz.ResolversAgreeExactly` | packages/trust/src/resolve-permission.ts:55-73 | the Go and TypeScript resolvers agree on every certificate list and time iff the requested resource holds no carriage return |
| `Capability.FilterAgainstRegistry` | sdk-go/capability/name.go:110-128 | the appending loop returns exactly the surviving names in their order |
| `Capability.FilterMeans` | sdk-go/capability/name.go:110-128 | a name survives iff it is built in, or custom and registered; filtering twice is filtering once |
| `Capability.CustomExactly` | sdk-go/capability/name.go:30-87 | a vendor without a colon, a colon and an action are a custom name iff both meet the written grammar and the vendor is not reserved; nothing without a colon is one |
| `Capability.BuiltinsExactly` | sdk-go/capability/name.go:34-70 | the built-ins are sixteen names and no other |
| `Capability.FilterExactly` | sdk-go/capability/name.go:110-128 | a name is in what the filter returns iff it was given and is built in, or is registered and of the written grammar with an unreserved vendor |
| `Capability.FilterSplits` | sdk-go/capability/name.go:110-128 | the filter works name by name, in order and with repetitions |
| `Capability.CustomNeverBuiltin` | sdk-go/capability/name.go:66-100 | no custom name is a built-in, so unregistering one never revokes a built-in |
| `SingleFlight.SingleFlightCache.constructor` | packages/controlplane/lib/kill-switch.ts:47-70 | the cache starts empty with nothing in flight |
| `SingleFlight.SingleFlightCache.Get` | packages/controlplane/lib/kill-switch.ts:81-99 | hit, join or start, and the state each leaves |
| `SingleFlight.SingleFlightCache.OnRows` | packages/controlplane/lib/kill-switch.ts:89-93 | a completed read replaces the entry and its time, and leaves the flight marked |
| `SingleFlight.SingleFlightCache.OnSettled` | packages/controlplane/lib/kill-switch.ts:94-96 | settling, after success or failure, clears only the flight |
| `SingleFlight.SingleFlightCache.Invalidate` | packages/controlplane/db/custom-capability.dao.ts:109-111 | invalidation clears the entry and not the flight |
| `CacheRuns.StepKeepsInv` | packages/controlplane/db/custom-capability.dao.ts:81-111 | every event (get, read, store, settle, fail, write, invalidate, tick) keeps: one query at most, every held and returned value a real snapshot, every bound |
| `CacheRuns.BoundedStaleness` | packages/controlplane/lib/kill-switch.ts:81-111 | over every run, at most one query is outstanding and a value returned at t was the store's content later than t minus (TTL plus the longest query latency) |
| `CacheRuns.FailureIsForgotten` | packages/controlplane/db/custom-capability.dao.ts:88-99 | a failed query leaves the cache unchanged and the next miss starts a new one |
| `CacheRuns.StoredAnswers` | packages/controlplane/lib/kill-switch.ts:81-93 | from any state, expired entries included: once a query stores its rows, in every continuation without an invalidation or a newer store each lookup within the TTL returns them at once, adding no query and no waiter |
| `CacheRuns.ExpiredAsksAgain` | packages/controlplane/db/custom-capability.dao.ts:81-100 | past the TTL a lookup returns nothing yet and starts a query, or joins the one in flight |
| `CacheRuns.SettlingAnswersAll` | packages/controlplane/lib/kill-switch.ts:94-98 | a query that settles answers everyone waiting on it with what it read, and takes nobody else off the waiting list |
| `CacheRuns.ReadAfterInvalidateExactly` | packages/controlplane/lib/kill-switch.ts:101-111 | every caller after an invalidation sees the write, through any later hits, joins and expiries, iff no query in flight had already read from before it |
| `LiveAnswers.StaleAfterInvalidate` | packages/controlplane/lib/kill-switch.ts:85-111 | from the start, a query reads, a write lands and the cache is invalidated, and a later caller can still get the old rows |
| `KillSwitch.ToState` | packages/controlplane/lib/kill-switch.ts:71-79 | the Map-filling loop computes the specified state |
| `KillSwitch.KillSwitchStore.constructor` | packages/controlplane/db/kill-switch.dao.ts:21-25 | nothing is armed at first |
| `KillSwitch.KillSwitchStore.Arm` | packages/controlplane/db/kill-switch.dao.ts:35-55 | the upsert: the whole new table, and the row returned |
| `KillSwitch.ArmTouchesOneRow` | packages/controlplane/db/kill-switch.dao.ts:35-55 | arming leaves every other row as it was and makes the armed one exactly its scope with the new reason, author and time |
| `KillSwitch.KillSwitchStore.Disarm` | packages/controlplane/db/kill-switch.dao.ts:57-63 | the delete: the whole new table, and the row that was armed or none |
| `KillSwitch.ListingOrderIsInvisible` | packages/controlplane/lib/kill-switch.ts:71-79 | any listing of the same rows gives the same state |
| `KillSwitch.SuspensionMeans` | packages/controlplane/lib/kill-switch.ts:113-155 | a certificate is suspended iff its holder is not human and the global switch, or a switch of a workspace it belongs to in one of three ways, is armed |
| `KillSwitch.BelongsExactly` | packages/controlplane/lib/kill-switch.ts:136-148 | the three ways a certificate belongs to a workspace: its stamp, its holder, a scope of exactly `workspace:` and the id |
| `KillSwitch.SuppressionNamesTheRow` | packages/controlplane/lib/kill-switch.ts:131-155 | which switch is reported: the global one, else that of the stamp, the holder or the scope, in that order |
| `Suspension.OnlyScopesMatter` | packages/controlplane/lib/kill-switch.ts:113-155 | two tables arming the same scopes give every certificate the same status |
| `Suspension.StatusExactly` | packages/controlplane/lib/kill-switch.ts:211-233 | what expiry, suspension and the registry each contribute to the status read and to the capabilities listed |
| `Suspension.ArmingIsMonotone` | packages/controlplane/lib/kill-switch.ts:211-233 | arming more never makes a certificate active nor gives back a capability |
| `Suspension.ArmThenDisarmExactly` | packages/controlplane/db/kill-switch.dao.ts:35-63 | arm then disarm restores every answer iff the scope was not armed before, or is a workspace an armed global switch covers anyway |
| `Suspension.SuspensionCoversDeletion` | packages/controlplane/db/workspace.dao.ts:78-95 | every certificate the workspace deletion query selects, for a non-human, reads revoked while that workspace is armed |
| `Suspension.DeletionSelectsExactly` | packages/controlplane/db/workspace.dao.ts:78-95 | the deletion query selects the active certificates belonging by stamp or scope, and none on account of the holder |
| `Suspension.DecisionRestsOnTheFirst` | packages/controlplane/lib/access-control.ts:12-46 | `hasCapability` says yes iff the first granting certificate is not suspended (or nothing is armed, or the holder is human) |
| `Suspension.ClearedExactly` | packages/controlplane/lib/access-control.ts:30-45 | the decision point clears a certificate iff nothing is armed, or the holder is known and the certificate is not suspended |
| `Suspension.YesIsBackedByActiveStatus` | packages/controlplane/lib/access-control.ts:12-46 | the first granting certificate, on which a yes rests, has a resolved status that is active, and some active status lists the capability iff it survives the registry filter |
| `Suspension.UnregisteredYes` | packages/controlplane/lib/access-control.ts:17-31 | with nothing armed and an empty registry, one active certificate for a custom name gets a yes that no active status lists |
| `Suspension.ArmingNeverAllows` | packages/controlplane/lib/access-control.ts:21-45 | arming more scopes never turns the decision point's no into a yes |
| `Suspension.ConservativeExactly` | packages/controlplane/lib/access-control.ts:27-29 | a yes implies some unsuspended grant; the converse fails exactly when the first grant is suspended |
| `Suspension.OrderCanDecide` | packages/controlplane/lib/access-control.ts:27-29 | the input: while a workspace is armed, swapping two certificates changes the answer |
| `Suspension.OrderDecidesExactly` | packages/controlplane/lib/access-control.ts:27-45 | for every keyed list of certificates, every rearrangement gets the same answer iff those that grant are all suspended or all not |
| `LiveAnswers.SeenAfterWindow` | packages/controlplane/db/custom-capability.dao.ts:76-80 | with no invalidation, a write is seen by every answer given a TTL and the longest query latency after it |
| `LiveAnswers.WindowIsTight` | packages/controlplane/db/custom-capability.dao.ts:76-80 | for every latency some run answers from before a write at the last instant of that window, so the TTL alone is not the worst case |
| `LiveAnswers.ArmingTakesHold` | packages/controlplane/lib/kill-switch.ts:101-111 | over every run: after an armed switch and a clean invalidation every later caller reads every covered certificate as revoked while it stays armed |
| `LiveAnswers.ArmingTakesHoldAnyway` | packages/controlplane/lib/kill-switch.ts:81-111 | the same without any invalidation, once a TTL and the longest latency have passed |
| `LiveAnswers.ArmingDeniesAtOnce` | packages/controlplane/lib/access-control.ts:30-45 | after an armed switch and a clean invalidation, `hasCapability` read through the cache says no whenever the first granting certificate is covered |
| `LiveAnswers.ArmingDeniesAnyway` | packages/controlplane/lib/access-control.ts:30-45 | the same without any invalidation, past the window |
| `LiveAnswers.DeletionTakesHold` | packages/controlplane/db/custom-capability.dao.ts:103-111 | after a deletion and a clean invalidation the name survives the filter in no later answer unless it is built in |
| `LiveAnswers.DeletionTakesHoldAnyway` | packages/controlplane/db/custom-capability.dao.ts:76-101 | the same without any invalidation, past the window |
| `Histogram.TimelineExtent` | packages/controlplane/components/AuditTimelineExplorer.tsx:72-76 | the least and the greatest time, none for no events |
| `Histogram.CountSlots` | packages/controlplane/components/AuditTimelineExplorer.tsx:98-103 | after the counting loop every slot's tally is the number of raw event times inside it |
| `Histogram.LayBars` | packages/controlplane/components/AuditTimelineExplorer.tsx:105-114 | the stepping loop terminates with bars from the first event's slot through the last one's |
| `Histogram.BuildBuckets` | packages/controlplane/components/AuditTimelineExplorer.tsx:78-114 | bars are contiguous, unit-aligned, equally wide, cover every event, counts are exact and sum to the events; 65 bars iff the range is a positive multiple of 64 units, otherwise at most 64 |
| `Histogram.WidthFacts` | packages/controlplane/components/AuditTimelineExplorer.tsx:92-97 | the chosen width is a positive whole number of units, 64 of them cover the range, and they meet it exactly in one case only |
| `Histogram.WidthIsLeast` | packages/controlplane/components/AuditTimelineExplorer.tsx:92-97 | no smaller positive number of whole units covers the range, or a day if longer, in 64 bars |
| `Histogram.CountExactly` | packages/controlplane/components/AuditTimelineExplorer.tsx:98-103 | a count is the number of events whose time is inside |
| `Histogram.ExactlyOneBucket` | packages/controlplane/components/AuditTimelineExplorer.tsx:105-114 | every event falls in exactly one bar |
| `ClientQueue.EventQueue.constructor` | sdk-go/vconn/client.go:72-107 | sizes that are not positive take their defaults; the queue is empty |
| `ClientQueue.EventQueue.Enqueue` | sdk-go/vconn/client.go:147-156 | the new event last, the oldest gone iff the queue was full |
| `ClientQueue.EventQueue.Drain` | sdk-go/vconn/client.go:165-179 | a prefix of the queue leaves in order; a non-positive limit takes all |
| `ClientQueue.EventQueue.FlushOnce` | sdk-go/vconn/client.go:504-522 | with any events enqueued before each drain, conservation is kept and the past grows by exactly those arrivals and the batches handed out; every batch but the last is full; a failure loses one batch, a success empties the queue; with no arrivals it fails iff one of the first ceil(n/size) sends does, and otherwise makes exactly that many |
| `ClientQueue.QueueConservation` | sdk-go/vconn/client.go:147-179 | over any interleaving of enqueues and drains the queue is a bounded suffix of the history, drained batches are an in-order duplicate-free subsequence, and enqueued = queued + drained + dropped |
| `ClientQueue.DropsOnlyWhenFull` | sdk-go/vconn/client.go:147-156 | an event is dropped only when the queue is full, and then the oldest |
| `Backoff.Run` | sdk-go/vconn/client.go:217-244 | the wait after each outcome, in wrapping int64 arithmetic |
| `Backoff.WaitClosedForm` | sdk-go/vconn/client.go:217-244 | for all positive int64 delays, in either order: over every history the wait is base after a connected session and after the first failure, and min(base * 2^(j-1), max) after the j-th, iff both delays are below 2^62 |
| `Backoff.OverflowExactly` | sdk-go/vconn/client.go:238-243 | for all positive int64 delays, no doubling ever leaves int64, over any history, iff both delays are below 2^62 |
| `Backoff.CapHonouredExactly` | sdk-go/vconn/client.go:215-218 | for all integers, every wait respects the cap iff the base delay does: the first wait is never clamped |
| `Envelope.LengthRoundTrip` | packages/policy/src/certs/codec.ts:23-29 | the little-endian length reads back |
| `Envelope.BytesRoundTrip` | sdk-go/grant/grant.go:116-116 | every four bytes are the encoding of the length they declare |
| `Envelope.PackingIsUnique` | packages/policy/src/certs/codec.ts:23-49 | a byte string is the packing of the parts its own length field names, and of no others |
| `Envelope.WireFormat` | packages/policy/src/certs/codec.ts:23-29 | on the wire the length stands least significant byte first, then the body, then the signature |
| `Envelope.PanicsExactly` | sdk-go/grant/grant.go:116-127 | the uint32 index wraps iff the declared length is within 4 of 2^32 and the input holds it; never on inputs of at most 2^32 bytes |
| `Envelope.GoAcceptsExactly` | sdk-go/grant/grant.go:102-128 | on inputs of every length the Go reader returns (body, signature) iff the input packs exactly them, the signature is not empty and the body is shorter than 2^32 - 4 bytes |
| `Envelope.RoundTripExactly` | sdk-go/grant/grant.go:107-128 | unpacking a packed body succeeds iff the body is shorter than 2^32 - 4 bytes |
| `Envelope.JsAcceptsExactly` | packages/policy/src/certs/codec.ts:36-49 | the TypeScript reader returns (body, signature) iff the input packs exactly them and has at least five bytes |
| `Envelope.ReadersDifferExactly` | sdk-go/grant/grant.go:117-127 | on inputs of every length the two readers differ iff the input is a packing with an empty signature, which Go refuses, or holds a body its index cannot address, where Go panics |
| `SrtBlock.RoundTripExactly` | packages/controlplane/lib/srt-block.ts:40-100 | split, serialize and parse preserve a block at all three levels, an empty managed list and a section left with nothing both counting as absent, iff its sections are objects and its managed fields string lists |
| `SrtBlock.SplitAfterSerialize` | packages/controlplane/lib/srt-block.ts:48-100 | the other way round: whatever the editor holds, serialized, parsed and split, is what it was |
| `SrtBlock.ListsAreRead` | packages/controlplane/lib/srt-block.ts:54-68 | each list is read from the block under its own name |
| `SrtBlock.ListsAreWritten` | packages/controlplane/lib/srt-block.ts:81-88 | and written back under the same name |
| `SrtBlock.ExtrasKept` | packages/controlplane/lib/srt-block.ts:40-47 | unknown top-level keys survive editing, for every block |
| `SrtBlock.SecondPassChangesNothing` | packages/controlplane/lib/certificate-form.ts:53-69 | reading back and editing again changes nothing, for every block |
| `SrtBlock.EmptyMeans` | packages/controlplane/lib/srt-block.ts:90-97 | nothing is submitted iff the block says nothing |
| `ActorGraph.CapKeepsTheBest` | packages/controlplane/lib/actor-graph.ts:169-187 | kept actors are distinct input rows, as many as the cap says, and every kept one precedes every dropped one in the ranking |
| `ActorGraph.NoIsolatedBeforeConnected` | packages/controlplane/lib/actor-graph.ts:172-174 | no unpinned unconnected actor is kept while a connected or pinned one is dropped |
| `ActorGraph.PinnedSurvive` | packages/controlplane/lib/actor-graph.ts:183-186 | pinned actors all survive when they fit |
| `ActorGraph.KeptIsTheFront` | packages/controlplane/lib/actor-graph.ts:182-186 | when the cap bites, kept actors stand in rank order, each ranks at least as high as any dropped one, and among actors of one rank and date those listed first are kept |
| `GraphFields.NewestAreKept` | packages/controlplane/lib/actor-graph.ts:172-186 | of two actors alike in being pinned and connected, the one kept was registered no earlier than the one dropped |
| `GraphFields.ShownInRankOrder` | packages/controlplane/lib/actor-graph.ts:182-186 | a capped graph lists its actors pinned first, then connected, then the rest, the newest first in each |
| `GraphAssembly.CollectConnected` | packages/controlplane/lib/actor-graph.ts:71-87 | the two loops collect exactly the ends of relationships with both ends present |
| `GraphAssembly.WithDegrees` | packages/controlplane/components/graph/actor-graph/ego.ts:77-88 | the counting Map gives every node its number of edge ends |
| `GraphAssembly.GroupMembers` | packages/controlplane/lib/actor-graph.ts:131-138 | the grouping loop: members per known workspace, workspaces by first appearance |
| `GraphAssembly.DrawHubs` | packages/controlplane/lib/actor-graph.ts:139-158 | a hub node and its membership edges per workspace with members |
| `GraphAssembly.AssembleActorGraph` | packages/controlplane/lib/actor-graph.ts:63-167 | the whole assembly computes the specified graph |
| `GraphPromises.InducedSubgraph` | packages/controlplane/lib/actor-graph.ts:105-129 | ownership edges iff both actors are kept, link edges iff both ends are, each exactly once |
| `GraphPromises.NoDanglingEdge` | packages/controlplane/lib/actor-graph.ts:107-111 | no edge of any kind, hub edges included, has a missing endpoint |
| `GraphPromises.MembershipExactly` | packages/controlplane/lib/actor-graph.ts:131-158 | a membership edge joins a hub to an actor iff the actor is kept and filed under that known workspace |
| `GraphFields.EdgesExactly` | packages/controlplane/lib/actor-graph.ts:105-159 | every edge in fields: from a kept owner to the kept actor it owns, along a link row between kept actors in its direction, or from the hub of a known workspace to a kept actor filed there; and nothing else |
| `GraphFields.ActorNodesExactly` | packages/controlplane/lib/actor-graph.ts:94-103 | one node per kept actor, in order, with its row's did, name and workspace, and its degree |
| `GraphFields.HubNodesExactly` | packages/controlplane/lib/actor-graph.ts:139-149 | then one per hub, with its workspace's name and id, and its degree |
| `GraphFields.HubsExactly` | packages/controlplane/lib/actor-graph.ts:131-140 | the hubs are the known workspaces some kept actor is filed under, once each, in the order the actors first name them |
| `GraphFields.WorkspacesById` | packages/controlplane/lib/actor-graph.ts:93-93 | a workspace is known iff a row has its id, and stands for the last such row |
| `GraphFields.MembersInOrder` | packages/controlplane/lib/actor-graph.ts:133-138 | a hub's members are listed in the order of the kept actors |
| `GraphFields.DegreeExactly` | packages/controlplane/components/graph/actor-graph/ego.ts:79-87 | a degree is the number of edges leaving a node plus the number arriving |
| `GraphPromises.TruncationIsHonest` | packages/controlplane/lib/actor-graph.ts:89-91 | `truncated` iff there are more actors than the cap; the total is the number given; a non-negative cap is never exceeded |
| `GraphPromises.CapPrefersRelationships` | packages/controlplane/lib/actor-graph.ts:73-89 | through the loop that computes connectivity: no isolated actor displaces a connected one, none a pinned one, and a pinned one is dropped only when they do not fit |
| `GraphPromises.Handshake` | packages/controlplane/components/graph/actor-graph/ego.ts:77-88 | with distinct nodes and no dangling edge the degrees sum to twice the edges |
| `GraphPromises.DegreesAddUp` | packages/controlplane/lib/actor-graph.ts:161-166 | every assembled graph with distinct node ids satisfies it |
| `BreadthFirst.BallIsReach` | packages/controlplane/lib/actor-graph.ts:207-214 | the ball of radius n is exactly what a path of at most n hops reaches |
| `BreadthFirst.HopCrawls` | packages/controlplane/lib/actor-graph.ts:225-258 | one capped hop keeps the crawl invariant: inside the ball, within the cap, complete unless truncated |
| `BreadthFirst.CrawlDone` | packages/controlplane/lib/actor-graph.ts:225-258 | at the end, not truncated iff everything was collected iff the ball fits the cap |
| `EgoCrawl.FindByDid` | packages/controlplane/db/actor.dao.ts:34-38 | the row of a did, or none |
| `EgoCrawl.FindManyByDid` | packages/controlplane/db/actor.dao.ts:40-43 | exactly the rows of the given dids |
| `EgoCrawl.ListByOwnerDids` | packages/controlplane/db/actor.dao.ts:169-172 | exactly the rows owned by one of the dids |
| `EgoCrawl.ListForActors` | packages/controlplane/db/actor-link.dao.ts:37-46 | exactly the links touching one of the dids |
| `EgoCrawl.Discover` | packages/controlplane/lib/actor-graph.ts:233-248 | the three queries of a hop bring in every neighbour of the frontier not collected yet, and nothing that is not one |
| `EgoCrawl.Collect` | packages/controlplane/lib/actor-graph.ts:249-257 | collected while there is room; truncated iff something new was refused |
| `EgoCrawl.AddLinks` | packages/controlplane/lib/actor-graph.ts:244-247 | one entry per link id: the newest row of each, every old entry in its place |
| `EgoCrawl.CrawlFrom` | packages/controlplane/lib/actor-graph.ts:221-258 | for any graph, depth and cap: every actor within depth hops, at most max(cap, 1), the whole ball iff not truncated, and exactly the links touching a collected actor within depth - 1 hops |
| `EgoTrim.Take` | packages/controlplane/components/graph/actor-graph/ego.ts:46-54 | neighbours taken while there is room |
| `EgoTrim.DepartFrom` | packages/controlplane/components/graph/actor-graph/ego.ts:42-56 | one hop of the trim over the whole frontier, never departing from a hub |
| `EgoTrim.Reach` | packages/controlplane/components/graph/actor-graph/ego.ts:37-57 | the trim keeps exactly the ball of the drawn graph iff it does not truncate, iff the ball fits |
| `EgoTrim.EgoSubgraph` | packages/controlplane/components/graph/actor-graph/ego.ts:19-75 | the trimmed graph: kept nodes and edges between them with recomputed degrees, or empty for an unknown focus |
| `EgoTrim.TrimKeepsExactly` | packages/controlplane/components/graph/actor-graph/ego.ts:59-75 | what a trim leaves: the edges with both ends kept, and the kept nodes with their new degrees |
| `EgoTrim.TrimSplits` | packages/controlplane/components/graph/actor-graph/ego.ts:59-71 | nodes and edges keep their order and repetitions |
| `EgoView.StepsExactly` | packages/controlplane/components/graph/actor-graph/ego.ts:29-56 | where the trim may go: along an edge between two nodes, either way, and from anywhere but a workspace hub |
| `EgoView.ClampDepth` | packages/controlplane/lib/actor-graph.ts:219-219 | the depth is 2 iff at least 2 was asked for, and 1 otherwise |
| `EgoView.TrimSeesEverything` | packages/controlplane/lib/actor-graph.ts:264-275 | everything the crawl collected is still within depth hops in the graph that was drawn |
| `EgoView.TrimToAll` | packages/controlplane/lib/actor-graph.ts:275-276 | trimming to all of it changes nothing |
| `EgoView.BuildEgoGraph` | packages/controlplane/lib/actor-graph.ts:215-277 | end to end: only actors within depth hops, at most max(cap, 1), truncated iff the ball does not fit; every actor and every edge drawn once, no hubs, each node its row with its number of edge ends; ownership edges exactly the induced ones; truncated or not, a link row is drawn iff both ends are shown and one is within depth - 1 hops |

## Left out

- Identity and cryptography: signatures, challenges, certificate signing, msgpack and base64 (section 4 of RFC 4648). A signed payload is modelled as the value it carries; Go's base64 decoder is lenient and lies outside the envelope bijection.
- Databases, sockets, files, processes and the network: the tables are values, and a query is an event that reads them. Row order is left unspecified.
- Text beyond ASCII: JavaScript `trim` and Go `TrimSpace` differ at U+0085 and U+FEFF, and JavaScript's `.` also excludes U+2028 and U+2029.
- JSON text (RFC 8259) is abstracted to its value: key order, duplicate keys and prototype keys are not represented, and numbers are exact reals without NaN, infinities or rounding.
- How the Go decoder treats nil and surplus keys is fixed as zero value and ignored; integers outside Go's `int` range are not refused. A payload of an accepted set holds no nil.
- Workspace ids are assumed non-empty and different from `"global"`, as generated ids are.
- Cache runs: a waiter returns at the instant its query settles; the microtasks between are not modelled. The clock never goes back. Cached values are immutable.
- Graph node colour and online flag, and the text of workspace colours: copied fields with no bearing on the structure. Caps are integers, or absent for no cap.
- Which actors a truncated ego view keeps depends on the order the tables list rows in, which is not modelled.
- `Histogram.BuildBuckets`: labels, keys, invalid dates and the choice of unit are not modelled; sorting is replaced by its effect (least, greatest, and a count that no order can change).
- `ClientQueue.EventQueue.FlushOnce`: takes the events that arrive during the flush as a finite list per drain, so a flush kept busy for ever is not modelled. A failure to build the envelope is the same as a failed send.
- `Backoff.Run`: cancellation is the end of the given outcomes; how a connection attempt turns out is an input.
- `RuleAuthoring.ValidateProxyRuleSet`: which of its faults a rule with several is refused for is modelled, and not stated beyond the order of the checks.
- `Rules.Evaluate`: the wording of errors and the destination's text form are not modelled.
- Envelope fields copied by `ToCertificate`, kind metadata, warnings texts, the sign-in window, badges and labels and template defaults are not modelled.
