# Vanity key search: a verified model

A central server keeps search targets (words and regular expressions), compiles the active
ones into a pattern list, and records the matches clients report. Clients generate SSH keys in
several goroutines, match each key against the list they last polled, and report hits and key
counts. This project models the parts of that system whose correctness is not visible in any
one function body, and proves what holds between them.

| file | what it models |
|---|---|
| `RegexSyntax.dfy` | a fragment of Go's regexp syntax (literals, classes with ranges and negation, groups, alternation, `?`, `*`, `+`, `.`, `^`, `$`): syntax trees, printer, parser; the parser undoes the printer |
| `RegexSamples.dfy` | the operators of the fragment checked against independent descriptions |
| `RegexMatch.dfy` | membership semantics, the engine (concrete on the fragment, arbitrary elsewhere), emitted word patterns and their meaning, the default affixes |
| `Compile.dfy`, `CompileMeaning.dfy` | the pattern compiler and its loops; the compiled list means exactly what the target list means; its size and shape |
| `AffixBars.dfy` | affix texts with a bar outside brackets and groups: exactly when compilation keeps its meaning |
| `Attribution.dfy`, `AttributionExact.dfy` | attribution of a report to a target, with the regex cache; agreement with the compiler; the credited target on the characters of the key; exactly when it is the one that wants the key |
| `PatternCache.dfy` | a seeker's compiled list, reused or rebuilt; always what a fresh compile gives |
| `Pool.dfy`, `PoolKeys.dfy`, `PoolReports.dfy`, `PoolProgress.dfy`, `PoolShutdown.dfy` | any number of seekers, the shared counter, the bounded channel, the main loop, as a step relation; conservation, what is sent for each key, provenance of reports, progress, termination of shutdown |
| `Hub.dfy`, `HubDelivery.dfy` | the SSE hub; safety and exact delivery over every interleaving |
| `Rfc3339.dfy` | calendar, fixed-width text and a reader for it, string order; string order is time order (section 5.1 of RFC 3339) |
| `Fleet.dfy`, `FleetLifecycle.dfy` | client upserts and the reaper, comparing times as text; the exact life cycle of a client row |
| `CaseModes.dfy`, `Store.dfy`, `Handlers.dfy` | tables, handlers, seeding; referential integrity and well-formed targets in every run |
| `HandlerEffects.dfy` | what a create, update, delete, post or seeding leaves behind, on the fields later requests see |
| `EndToEnd.dfy` | from a client's run and a server's run to the recorded match |
| `Telemetry.dfy` | the heartbeat's key rate, over reals |
| `Model.dfy`, `Ascii.dfy`, `Basics.dfy` | shared records, ASCII text, lists and sums |

How the source's parts are rendered:

- Code that works by updating state is a method or a class (`CompilePatterns`, `Attributor`,
  `SeekerPatterns`, `EventHub`, `ClientTable`, `Tables`, `Api`, `HeartbeatSender`). Each method's
  postcondition ties the new state to a function of the old one; the theorems about runs are
  about those functions.
- Goroutines, the channel and the main loop are one state and a set of atomic steps; a run is
  any list of steps each of which is enabled. What the program leaves open (which ready `select`
  case is taken, whether a tick has fired, which key is generated) is a parameter of the step.
- Clock readings, generated identifiers and request bodies are parameters; the order in which
  the database returns ties is left open. Identifiers may clash: an insert under a taken ID is
  an error that changes nothing, as the primary key makes it.
- A status carries, as history, the pattern list its seeker had read; the program has no such
  field.
- User regex targets go to `Engine`, whose answers outside the fragment are two arbitrary
  functions. Inside the fragment, compiling and matching mean what the syntax tree means.

Where comments and code differ, the code is followed:

- The comment on `DeleteOfflineClients` (`pkg/store/store.go:416-417`) speaks of clients that have
  *been offline* for longer than the threshold. The statement compares `last_seen`, so one
  reaper tick may mark a row offline and delete it at once (`FleetLifecycle.TickExactly`).
- The comment on `DeleteTarget` (`pkg/store/store.go:220-223`) describes the missing target as "no
  row matched". The match deletion is committed all the same; that this is harmless for a
  non-empty ID is a consequence of referential integrity (`Store.NotFoundChangesNothing`).

Properties that fail in general, with the exact condition:

- Compilation keeps its meaning for given affixes, on every target list, side and text, exactly
  when no branch that a top-level bar of an affix cuts off from the word is ever found
  (`AffixBars.PreservingAffixesExactly`); unless such a branch has an anchor in its middle, that
  is exactly when no affix has such a bar (`AffixBars.BarFreeExactly`). The default affixes have
  none. `AffixBars.BareBarInAffix` is a list that finds a text none of its targets wants;
  `CompileMeaning.CompilationMeaning` says what is found in general.
- Attribution need not name the target that matched, because containment ignores affixes and
  position: `Attribution.AttributionMayNameAnother`. It names the first target that wants the key
  exactly when no word target before it has its word somewhere on a side it searches and the
  report names (`AttributionExact.CreditsFirstWanterExactly`). For a list of words it does so on every key
  reported on one side exactly when the first target searched there wants whatever any target
  wants (`AttributionExact.CreditAlwaysRightExactly`).
- Listing and recording are separate statements. A delete between them leaves a dangling
  `target_id`: `Store.DeleteBetweenListAndRecord`; recording keeps integrity exactly when the
  target is empty or still there: `Store.RecordKeepsIntegrityExactly`.
- Heartbeat rates add up to the keys counted exactly when no keys were counted between two
  heartbeats with the same clock reading: `Telemetry.RatesTelescope`.

## Model

| member | source | states |
|---|---|---|
| RegexSyntax.ParseUndoesPrint | pkg/server/compile.go:58-80 | printing any expression of the fragment and parsing the text gives the same tree, so quoting and grouping survive as text |
| RegexSyntax.ConcatenandInContext | pkg/server/compile.go:77-79 | an affix text that parses alone as one concatenation contributes it in front of whatever follows |
| RegexSyntax.AlternationInContext | pkg/server/compile.go:77-79 | an affix text with bars runs its last branch on into what follows; its other branches stand apart |
| RegexSyntax.MetaSpelledOut | pkg/server/compile.go:58 | the characters that are escaped, spelled out |
| RegexMatch.QuoteMetaInjective | pkg/server/compile.go:58-61 | distinct words quote to distinct texts, so de-duplicating quoted words de-duplicates words |
| RegexMatch.WordPatternParses | pkg/server/compile.go:72-80 | for arbitrary words the emitted text parses to the prefix run on into the alternation of exactly those words, run on into the suffix, with the case flag |
| RegexMatch.WordProgramMeaning | pkg/server/compile.go:74-80 | the parsed pattern finds a text exactly when one of its words is found between the affixes, or a branch a bar of an affix cuts off |
| RegexMatch.WordPatternMeaning | pkg/server/compile.go:72-86 | compiling and running the emitted text is the same as looking for one of the words, or a cut-off branch |
| RegexMatch.DefaultAffixesParse | pkg/server/server.go:46-47 | the default prefix is a class of slash and plus, the default suffix an optional equals sign at the end of the text |
| RegexMatch.DefaultWordHit | pkg/server/server.go:46-47 | with the default affixes a word is found exactly when the text ends with a separator, the word and an optional equals sign |
| RegexSamples.StarMeaning | pkg/server/compile.go:77-79 | a starred atom matches exactly what can be cut into matches of it |
| RegexSamples.PlusMeaning | pkg/server/compile.go:77-79 | with a plus, what can be cut into at least one |
| RegexSamples.SampleMeaning | pkg/server/compile.go:77-79 | an expression of both anchors, a negated range, a star and a dot finds exactly the texts it describes |
| Model.ScopeMeaning | pkg/server/compile.go:91-98 | normalising a scope and reading its flags searches a side unless the scope names only the other one |
| Compile.Capitalize | pkg/server/compile.go:100-110 | overwrites the runes in place with the capitalised spelling |
| Compile.CapitalizeWord | pkg/server/compile.go:100-110 | returns the capitalised spelling of a word |
| Compile.CapitalizedExactly | pkg/server/compile.go:100-110 | that spelling is the only one with the same letters, first character not lower case, the others not upper case |
| Compile.SelectWord | pkg/server/compile.go:35-51 | the word and case rule of a mode; unknown modes are skipped |
| Compile.AddWord | pkg/server/compile.go:53-61 | files a quoted word under its group, keeping the group order and no duplicates |
| Compile.AddTarget | pkg/server/compile.go:29-62 | the mode loop adds exactly the entries of the target's modes |
| Compile.EmitGroups | pkg/server/compile.go:72-86 | one pattern per group, in the order the groups were opened, with the flags of its scope |
| Compile.CompilePatterns | pkg/server/compile.go:16-89 | the loops produce the regex targets' patterns followed by the group patterns |
| CompileMeaning.HitHasTarget | pkg/server/compile.go:26-86 | a hit of a compiled pattern comes from a target of the list, with the same sides, that wants the text or carries a cut-off branch found in it |
| CompileMeaning.CatchHasPattern | pkg/server/compile.go:26-86 | a target that wants a text on a side, or carries a cut-off branch found in it, is represented by a pattern that hits it on that side |
| CompileMeaning.CompilationMeaning | pkg/server/compile.go:16-89 | on each side, for every target list, text and affixes that read as expressions: some compiled pattern hits if and only if some target wants the text or carries a cut-off branch found in it |
| CompileMeaning.CompilationPreservesMeaning | pkg/server/compile.go:16-89 | when no cut-off branch is ever found, on each side, for every target list and text: some compiled pattern hits if and only if some target wants the text |
| CompileMeaning.DefaultCompilationMeaning | pkg/server/compile.go:16-89 | the same with the default affixes, a word meaning "ends with separator, word in one of its modes, optional equals sign" |
| CompileMeaning.WordTargetNotDropped | pkg/server/compile.go:35-62 | a word target with a known mode is represented on every side it searches |
| CompileMeaning.CompiledShape | pkg/server/compile.go:21-98 | one pattern per regex target, in order and first, its flags unset only for the other one-sided scope; then one group per distinct key, at most six, in the order the keys are first used |
| CompileMeaning.GroupFlag | pkg/server/compile.go:76-80 | the text of a group opens with the literal case flag exactly when the group ignores case |
| CompileMeaning.GroupWordsShape | pkg/server/compile.go:57-61 | a group lists distinct words, exactly those filed under its key, in first-occurrence order |
| AffixBars.PreservedExactly | pkg/server/compile.go:72-86 | for one list, side and text: meaning is preserved exactly when cut-off branches are found there only in a wanted text |
| AffixBars.PreservingAffixesExactly | pkg/server/compile.go:72-86 | for given affixes: meaning is preserved for every list, side and text exactly when no cut-off branch is ever found |
| AffixBars.BarFreeExactly | pkg/server/compile.go:77-79 | unless a cut-off branch is anchored in its middle, that is exactly when no affix has a bar outside brackets and groups |
| AffixBars.BareBarInAffix | pkg/server/compile.go:77-79 | with a bare bar after `x` in the prefix, the list compiled for the word `ab` finds `x`, which its only target does not want |
| Attribution.Attributor.CachedCompile | pkg/server/server.go:135-145 | answers as a fresh compile would; only successes enter the cache |
| Attribution.Attributor.WordClaims | pkg/server/routes_matches.go:86-120 | a word target claims a report exactly when some mode's spelling occurs on a side that is searched and reported |
| Attribution.Attributor.RegexClaims | pkg/server/routes_matches.go:121-135 | the same for a regex target, through the cache; one that does not compile never claims |
| Attribution.Attributor.AttributeMatch | pkg/server/routes_matches.go:77-139 | returns the ID of the earliest target in list order that claims the report, empty exactly if none does |
| Attribution.EarliestClaimantUnique | pkg/server/routes_matches.go:83-138 | that specification has exactly one answer |
| Attribution.ContainsWordMeaning | pkg/server/routes_matches.go:142-147 | the substring test holds exactly when the word stands at some position, character for character, or up to ASCII case when case is ignored |
| AttributionExact.CreditedExactly | pkg/server/routes_matches.go:77-139 | with distinct IDs, the answer is a target's ID exactly when that target is the first with its word at some position of a searched and reported side, spelled as one of its modes asks, or its expression found there |
| AttributionExact.UncreditedExactly | pkg/server/routes_matches.go:77-139 | the answer is empty exactly when there is no such target |
| Attribution.HitIsContained | pkg/server/routes_matches.go:142-147 | what a pattern finds between affixes is contained in the text under the same case rule, lower-casing both sides |
| Attribution.WantClaims | pkg/server/routes_matches.go:83-137 | a target that wants the reported text claims the report |
| Attribution.AttributionComplete | pkg/server/routes_matches.go:77-139 | every hit of a list compiled from targets still active is attributed to the non-empty ID of a target that claims it |
| Attribution.AttributedNoLater | pkg/server/routes_matches.go:83-118 | the attributed target never comes after one that really wants the key |
| Attribution.AttributionMayNameAnother | pkg/server/routes_matches.go:110-118 | a key only the second target wants can be credited to the first |
| AttributionExact.CreditsFirstWanterExactly | pkg/server/routes_matches.go:83-138 | with distinct IDs, the first target that wants the key is credited exactly when no word target before it has its word somewhere in the key |
| AttributionExact.CreditAlwaysRightExactly | pkg/server/routes_matches.go:83-138 | for a list of words under the default affixes: every key reported on one side is credited to the first target that wants it exactly when the first target searched there wants every text any target wants |
| PatternCache.SeekerPatterns.PatternsMatch | pkg/client/main.go:236-248 | true exactly when lengths, texts and both flags agree position by position |
| PatternCache.SeekerPatterns.Refresh | pkg/client/main.go:135-156 | whether reused or rebuilt in place, the list equals compiling the snapshot afresh |
| PatternCache.RefreshIsFresh | pkg/client/main.go:135-156 | a sound list refreshed against any snapshot is the fresh compilation of it |
| PatternCache.ReuseExactly | pkg/client/main.go:231-248 | the list is reused exactly when it is already the fresh one and nothing failed to compile, so a scope-only change rebuilds |
| Pool.StepKeepsInv | pkg/client/main.go:121-228 | every step of every seeker and of the main loop keeps the conservation laws and the seekers' local facts |
| Pool.CountsConserved | pkg/client/main.go:170-228 | in every interleaving: shared total = keys generated = counted + buffered + unreported; hits found = counted + buffered + being sent + given up; the statistics are those of the statuses received, in the order sent, and at most two statuses per seeker are buffered |
| Pool.TotalCountsKeys | pkg/client/main.go:170-173 | the shared total grows by one per generated key, however many patterns it matches |
| Pool.SeekerTestsFreshList | pkg/client/main.go:129-210 | a key is tested against the fresh compilation of the snapshot just read; a seeker returns only after cancellation |
| Pool.SendsWhileRoom | pkg/client/main.go:203-207 | in every interleaving a status goes out exactly while fewer than two per seeker are buffered, and is given up exactly when cancelled |
| PoolKeys.KeyReportedExactly | pkg/client/main.go:170-210 | in every interleaving, what a seeker has sent for a key when it comes to the ticker is one status for each pattern of its snapshot that finds the key, in list order, the first carrying the pending count, the others zero |
| PoolKeys.FreshReports | pkg/client/main.go:135-156 | what is to be reported for a key is the same read off the compiled list or off the patterns polled, those that do not compile finding nothing |
| PoolReports.ReceivedHitsAreGenuine | pkg/client/main.go:176-207 | every match status received is the outcome of one pattern of the snapshot its seeker had read, a published one, on the key it carries |
| PoolReports.PolledIsLatest | pkg/client/main.go:102-108 | the snapshot a seeker reads is the one fetched last |
| PoolProgress.EverySeekerTests | pkg/client/main.go:121-228 | from every reachable state that is not cancelled, if some pattern of the list fetched last compiles: every seeker, by its own steps and takings of the main loop, comes round to polling and on to the ticker with any key, having sent exactly what that key is to be reported with under that list |
| PoolProgress.FetchTakesEffect | pkg/client/main.go:459-463 | while not cancelled a new list can be published, and is the one polled |
| PoolProgress.TickerReports | pkg/client/main.go:212-228 | when the ticker fires the pending count gets on the channel and nothing is pending any more |
| PoolProgress.Drains | pkg/client/main.go:477-489 | the main loop can take in everything sent, and then its statistics are those of everything sent |
| PoolProgress.CanAlwaysStop | pkg/client/main.go:490-497 | from every reachable state the client can be cancelled and brought to where every seeker has returned |
| PoolShutdown.StepDecreases | pkg/client/main.go:203-224 | once the main loop has left, every step lowers the bound on remaining steps, and every send the bound on remaining sends |
| PoolShutdown.NeverStuck | pkg/client/main.go:203-207 | after cancellation a seeker that has not returned can move, whatever the channel holds |
| PoolShutdown.ShutdownCompletes | pkg/client/main.go:490-497 | from any reachable state, every schedule after cancellation is bounded, sends at most the remaining patterns plus one per seeker, and when it cannot go on every seeker has returned |
| Hub.StepKeepsSafe | pkg/server/sse.go:29-79 | no step panics, registered channels stay open, a closed hub has no clients, buffers hold at most 64 |
| Hub.EventHub.SubscribeClient | pkg/server/sse.go:29-46 | registers a new open channel, or returns a closed unregistered one when the hub is closed |
| Hub.EventHub.UnsubscribeClient | pkg/server/sse.go:40-44 | removes the channel and nothing else, also when late or repeated |
| Hub.EventHub.CloseHub | pkg/server/sse.go:49-57 | the loop closes exactly the registered channels, each once, in any order; repeated calls are safe |
| Hub.EventHub.BroadcastMessage | pkg/server/sse.go:67-78 | every registered channel with room gets the message at its end; the others are unchanged |
| Hub.EventHub.TakeMessage | pkg/server/sse.go:113-119 | a subscriber takes the oldest buffered message |
| HubDelivery.AlwaysSafe | pkg/server/sse.go:29-79 | the safety facts hold after every run |
| HubDelivery.ClosedExactly | pkg/server/sse.go:49-52 | the hub is closed exactly when Close has happened, so closing is permanent |
| HubDelivery.RegisteredExactly | pkg/server/sse.go:29-57 | a channel is registered exactly inside its subscriber's window |
| HubDelivery.OpenExactly | pkg/server/sse.go:29-57 | Close closes exactly the channels registered then; a late subscriber's channel is closed from the start; an unsubscribed one never is |
| HubDelivery.DeliveredExactly | pkg/server/sse.go:67-78 | taken plus buffered messages are exactly the window's broadcasts that found room, in order |
| HubDelivery.DeliveredInOrderOrDroppedWhenFull | pkg/server/sse.go:60-79 | they are a subsequence of the window's broadcasts; taken + buffered + those that met 64 buffered = broadcasts in the window |
| Rfc3339.PadOrder | pkg/store/store.go:136 | zero-padded numbers of equal width compare as numbers |
| Rfc3339.FieldsOrder | pkg/store/store.go:379 | calendar fields compared from the year down agree with seconds, through months and leap years |
| Rfc3339.FieldsOfCorrect | pkg/store/store.go:379 | the calendar conversion gives valid fields and is inverse to counting seconds, up to year 9999 |
| Rfc3339.TextOrder | pkg/store/store.go:388 | the formatted texts compare as the calendar fields do |
| Rfc3339.TextLayout | pkg/store/store.go:379 | where each field and mark stands in the text |
| Rfc3339.ReadUndoesText | pkg/store/store.go:165 | a reader that weighs digits by their places and checks the marks gives back the fields of every valid date and time |
| Rfc3339.FormatExactly | pkg/store/store.go:136-137 | an instant is written as a text exactly when the text is laid out as a valid date and time and reads as its second |
| Rfc3339.EpochText | pkg/store/store.go:379 | Unix time 0 is written 1970-01-01T00:00:00Z |
| Rfc3339.StringOrderIsTimeOrder | pkg/store/store.go:410-421 | for all instants with four-digit years, text order and equality are order and equality of whole seconds |
| Rfc3339.WrittenOrder | pkg/store/store.go:178 | texts of instants order as the seconds they were written in |
| Rfc3339.MonthStarts | pkg/store/store.go:379 | the days before each month of common and leap years are those of the printed calendar |
| Rfc3339.EpochAnchor | pkg/store/store.go:379 | the calendar starts 1970 at Unix time 0 |
| Fleet.ClientTable.UpsertClient | pkg/store/store.go:356-381 | inserts or replaces the whole row, filling a missing ID or time |
| Fleet.ClientTable.HandleRegister | pkg/server/routes_clients.go:10-44 | upserts the client as active, now, with rate and count zero |
| Fleet.ClientTable.HandleHeartbeat | pkg/server/routes_clients.go:46-75 | upserts the client as active, now; without a client ID it is refused and nothing changes |
| Fleet.ClientTable.MarkOfflineClients | pkg/store/store.go:409-414 | no row comes or goes; a row is set offline exactly when more than 90 whole seconds separate its last time from the clock, and is otherwise unchanged |
| Fleet.ClientTable.DeleteOfflineClients | pkg/store/store.go:418-423 | a row goes exactly when it is offline and more than 300 whole seconds separate its last time from the clock; the others are unchanged |
| Fleet.ClientTable.ReaperTick | pkg/server/server.go:305-316 | for any two clock readings: a row is gone exactly when over 300 s old at the second and offline before or over 90 s old at the first; what is left is offline when over 90 s old at the first, else unchanged |
| Fleet.CutoffMeaning | pkg/store/store.go:409-422 | a text is before a cutoff exactly when more than 90 (or 300) whole seconds separate the truncated readings |
| FleetLifecycle.ClientLifecycle | pkg/server/server.go:298-318 | after any run: a client is listed unless deleted more than 300 s after its latest upsert and after a marking; it shows what it told then; offline exactly when marked more than 90 s after it |
| FleetLifecycle.NeverSeenNotListed | pkg/store/store.go:385-405 | a client that never upserted is not listed |
| FleetLifecycle.KeptAliveIsActive | pkg/server/routes_clients.go:46-75 | on a monotone clock, a client with an upsert at most 90 s old at every marking is active in every reachable state |
| FleetLifecycle.PunctualClientIsActive | pkg/client/main.go:454-466 | on a monotone clock, a client whose upserts are at most 90 s apart, the next not overdue, is active in every reachable state |
| FleetLifecycle.FreshRowNotMarked | pkg/store/store.go:407-414 | a row at most 90 s old is never marked offline |
| FleetLifecycle.ActiveRowNotDeleted | pkg/store/store.go:418-423 | a row that is not offline is never deleted |
| FleetLifecycle.TickExactly | pkg/server/server.go:305-316 | after a tick whose readings are within 10 s: exactly the rows over 300 s old are gone, exactly those over 90 s old are offline, the others untouched |
| CaseModes.CaseModesRoundTrip | pkg/store/store.go:202-207 | joining and splitting gives a list back exactly when no member holds a comma and it is not one empty text; the empty list reads as the default mode |
| Store.Tables.CreateTarget | pkg/store/store.go:111-138 | inserts the target with defaults for type, modes, scope and time only; a taken ID changes nothing |
| Store.Tables.UpdateTarget | pkg/store/store.go:211-218 | overwrites every mutable column of that row, keeping its creation time |
| Store.Tables.DeleteTarget | pkg/store/store.go:224-250 | removes the target and its matches together and reports how many and whether |
| Store.Tables.ListActiveTargets | pkg/store/store.go:175-184 | exactly the active rows, each once, read back, newest first by the text of the creation time |
| Store.Tables.RecordMatch | pkg/store/store.go:256-278 | fills ID and timestamp and inserts; a taken ID changes nothing |
| Store.DeletedExactly | pkg/store/store.go:224-250 | exactly the target and its matches are gone, the count is what disappeared, integrity is kept |
| Store.NotFoundChangesNothing | pkg/store/store.go:220-250 | under integrity, deleting a missing target changes nothing, exactly unless the ID is empty and unattributed matches exist |
| Store.RecordKeepsIntegrityExactly | pkg/store/store.go:267-277 | recording keeps integrity exactly when the target is empty or exists |
| Store.DeleteBetweenListAndRecord | pkg/server/routes_matches.go:62-69 | a delete between listing and recording leaves a match naming a missing target |
| Handlers.Base64Alphabet | pkg/server/routes_targets.go:17-35 | the word check is membership in the base64 alphabet |
| Handlers.Api.HandleCreateTarget | pkg/server/routes_targets.go:80-114 | status and new tables for every body: refused, clash, or inserted with defaults |
| Handlers.Api.HandleUpdateTarget | pkg/server/routes_targets.go:143-194 | status and new tables for every body: missing, refused, or replaced |
| Handlers.Api.HandleDeleteTarget | pkg/server/routes_targets.go:196-212 | status and new tables for every ID |
| Handlers.Api.HandleGetActiveTargets | pkg/server/routes_targets.go:130-141 | the compiled list of the active targets, in listing order |
| Handlers.Api.HandlePostMatch | pkg/server/routes_matches.go:40-74 | stores the match as posted under the new ID and time, credited over the active targets of the store; nothing else changes; a taken ID changes nothing |
| Handlers.SeedDefaultTarget | pkg/server/server.go:246-296 | seeds only an empty table, with the flag's regex, else the environment's, else the eleven words, stopping at the first error; a good store stays good |
| Handlers.SeedingKeepsOk | pkg/server/server.go:263-279 | inserting targets one by one, stopping at an error, leaves every target well-formed |
| Handlers.SeededStoreOk | pkg/server/server.go:246-296 | whatever the flag and the environment hold, and whichever IDs are generated, seeding gives a store the handlers can rely on |
| Handlers.KnownModesReadBack | pkg/store/store.go:202-216 | allowed case modes read back as stored, none as the default mode |
| Handlers.StepKeepsOk | pkg/server/routes_targets.go:80-212 | every handler keeps integrity and well-formed targets |
| Handlers.ReachableStoreOk | pkg/server/routes_targets.go:80-212 | in every run, each handler one step: every match is unattributed or names an existing target, every target reads back well-formed and its creation time is the text of an instant |
| Handlers.DeleteNotFoundHarmless | pkg/server/routes_targets.go:196-206 | in every reachable state "not found" means nothing changed |
| HandlerEffects.AcceptedExactly | pkg/server/routes_targets.go:17-71 | exactly the bodies a create and an update accept, in literals |
| HandlerEffects.CreatedIsListed | pkg/server/routes_targets.go:80-114 | after an accepted create with an unused ID, every listing holds the target exactly when the body is active, with the body's pattern and label, its type, modes and scope or their defaults, and its time; no other target or match changes |
| HandlerEffects.CreatedWordIsServed | pkg/server/routes_targets.go:80-141 | an active word so created is found by the list served, in each spelling, on every side of its scope |
| HandlerEffects.UpdatedIsListed | pkg/server/routes_targets.go:143-194 | after an accepted update, every listing holds the target exactly when the body is active, showing the body and the old creation time; no other target or match changes |
| HandlerEffects.DeletedIsNotListed | pkg/server/routes_targets.go:196-212 | a deleted target is listed no more; the others are as before |
| HandlerEffects.PostedIsRecorded | pkg/server/routes_matches.go:40-74 | client, host, seeker, match string, flags and key of the stored row are the body's, its target the credited one; all other rows are unchanged |
| HandlerEffects.SeededRegexIsListed | pkg/server/server.go:255-261 | a start on an empty table lists the flag's expression, or else the environment's |
| HandlerEffects.SeededWordsAreListed | pkg/server/server.go:263-279 | with neither given it lists exactly the default words, on both sides, whatever the case |
| Handlers.NoActiveWordDropped | pkg/server/compile.go:35-62 | no active word target of a reachable store is dropped, on any side it searches, in any of its modes |
| EndToEnd.EveryHitIsAttributed | pkg/server/routes_matches.go:40-74 | for any run of the client and any run of the server: a received hit is stored with its client, host, seeker number, key and flags, under an existing target that claims it, if the snapshot its seeker had read came from targets still active |
| EndToEnd.ServedStaysCurrent | pkg/server/routes_targets.go:130-141 | a served list is compiled from targets still active as long as none of them is edited or deleted |
| EndToEnd.AttributedToNewest | pkg/store/store.go:175-184 | in every reachable state a match is credited to a newest claimant: none created in a later second claims it |
| Telemetry.HeartbeatSender.SendHeartbeat | pkg/client/main.go:315-350 | rate times elapsed time is the keys counted since the last heartbeat; the rate is zero on the first or when no time passed; the reading is remembered even when sending fails |
| Telemetry.RateNotNegative | pkg/client/main.go:319-323 | no rate is negative |
| Telemetry.RatesTelescope | pkg/client/main.go:319-325 | rates times elapsed times never exceed the keys counted, and equal them exactly when nothing was counted at an unchanged clock |
| Telemetry.RatesTelescopeInTime | pkg/client/main.go:315-325 | with increasing times the sum is the last count minus the first |

## Left out

- Compile.Capitalize: case mapping is ASCII; Go maps Unicode runes. Word patterns that pass validation and the seeded words are ASCII.
- Compile.CapitalizeWord: the same.
- Compile.CapitalizedExactly: the same.
- RegexMatch.WordPatternMeaning: `(?i)` folds ASCII letters only; keys are ASCII. Go's limits on program size are not modelled.
- RegexSyntax.ParseUndoesPrint: the parser answers only for the fragment; any other text is left to the arbitrary part of the engine.
- CompileMeaning.CompilationMeaning: affix texts outside the fragment (counted or lazy repetition, inline flags, Perl and named classes, a group opened in the prefix and closed in the suffix) are not covered.
- CompileMeaning.HitHasTarget: the same.
- CompileMeaning.CatchHasPattern: the same.
- CompileMeaning.CompilationPreservesMeaning: the same.
- AttributionExact.CreditAlwaysRightExactly: lists that hold regex targets are covered by the condition for one report only; keys are any text.
- Pool.CountsConserved: counters are unbounded integers, and the text of a match (`FindString`) is not part of a status.
- PoolProgress.EverySeekerTests: progress is a schedule that leads there; that the Go scheduler takes it is not modelled.
- PoolShutdown.ShutdownCompletes: time itself (sleeps, HTTP timeouts in the main loop) is not modelled; the bound is in steps.
- Hub.EventHub.BroadcastMessage: marshalling an event, and its failure, happen before the modelled step.
- Fleet.ClientTable.MarkOfflineClients: clock readings outside years 0 to 9999 are excluded by the type of instants.
- FleetLifecycle.KeptAliveIsActive: each event carries the clock reading it used; a handler that reads the clock long before its upsert takes effect is outside the monotone-clock premise.
- Store.Tables.DeleteTarget: database errors and rollback are not modelled; each statement succeeds or is refused for a clashing ID.
- Handlers.ReachableStoreOk: each handler is one step; interleaved statements are covered only by the race lemma.
- The private and public key material of a match, its JSON form and the public summary.
- Key generation, fingerprints, client IDs derived from host names, and HTTP itself.
- `handleStats` sums the rates and key counts of active clients and counts the matches; `parseLimit` bounds a query parameter; the other list endpoints return rows as stored.
