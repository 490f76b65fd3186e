# Fuvay back end: a verified model of its protocols and rewrites

The project states, in Dafny, what the parts of the platform that keep state or rewrite data are for, and
proves it for every input, every run and every interleaving the model admits. `dafny verify dfyconfig.toml`
checks all of it.

**The request pipeline** (`app/middleware.py`, with the admin calls of `app/engines/security`).
`Cidr` gives networks their meaning as leading bits (section 3.1 of RFC 4632, host bits ignored).
`Blocklist` is one request against the PostgreSQL rows and the two Redis sets that index them, with every
combination of Redis, query and commit faults; `BlocklistStore` is the same with the program's loops and
fields; `BlocklistAdmin` adds the calls that write the blocklist and `BlocklistRuns` whole runs of all of
them. `BlocklistEffects` and `BlocklistCalls` say, field by field, what a request and each call decide and change. `Idempotency` is the check / execute / store protocol as a state machine over interleaved requests.
`Pipeline` composes them in the order in which the middleware is registered; `PipelineReplies` says what replies hold
and whose answers they are.

**The scripts.** `Sweep`, `SweepEffects`, `SweepRounds`, `SweepClears`, `SweepForeignKeys` and `SweepStages`: the retrying
delete sweep, its rollbacks, and the deletion of the tenants after it. `Journey`, `JourneyDetails`, `JourneyShape`,
`JourneyRuns` and `JourneyCatalogue`: the rewriting of workflow journeys. `Patcher`, `PatcherEdits`, `PatcherSafety`,
`PatcherBlocks` and `PatcherWritten`: the bottom-up source fixer and the text it writes; `PatcherSignature`,
`PatcherDefinitions`, `PatcherImports`, `PatcherImportLines` and `PatcherImported` (over `Text`, `CommaLists` and `ParameterLists`): whether what it writes obeys Python's rules for
parameter lists and imports. `Migration` and `MigrationRefs`: the repointing of media URLs. `SeedLedger`: the deduction
over repeated, aborted seed runs. `PiiScrub` (over `Json`), `Percentile` and `TenantGuard`: three smaller algorithms.

Code that updates fields or lists step by step is a class or a method with loops, proved equal to a function;
the theorems are lemmas about that function. `Wrappers` and `Sequences` hold an option type and regroupings of
sequences.

## What turned out not to hold

The model follows the code. Where the code does not keep a promise that its comments, its documentation or its
purpose make, there is a lemma that shows it and one that says exactly when the promise is kept.

- A request that Redis candidates bring to the database, where no row stops it, is passed on inside a `try` block
  whose handler passes it on again: if its handler raises, it is counted and handled twice
  (`RaisingRequestRunsTwice`; exactly then: `HandledOnceIff`, `CountedOnceIff`, `OnceEachIff`).
- A successful answer to a keyed request that does not decode or cannot be stored goes out with an empty body
  (`ExportIsLost`, `UnstoredAnswerIsLost`; exactly when it comes back: `AnswerComesBackIff`).
- The 500 for an unhandled exception carries no request id (`IdentifiedIffReturned`), and refusals and replays carry
  no security headers (`SecurityHeadersOnlyOnHandledReplies`). The header of `app/middleware.py` leaves the blocklist
  out of the order it gives; the model has the registered order.
- A row past its expiry takes the Redis entry of an enforced row along when the two share a network under two
  different entry types, neither of them "ip" (`OddTypeUncovers`; exactly then: `DispatchCoherence`). The
  older endpoint stores the type as given, so such rows can exist.
- The older endpoints put every network into the exact-address set, where a prefix is not found
  (`MistypedPrefixIsNotEnforced`; exactly what is found: `BlockedIffFound`), and leave the status of an unblocked row
  (`UnblockCoherence`, `WarmUndoesUnblock`).
- Revoking an unexpired row never removes its Redis entry: the session does not autoflush, so the search for
  other holders finds the row itself (`RevokeLeavesIndexEntry`; exactly when it does: `RevokeRemovesEntryIff`).
- A block past its expiry that no request has met keeps the status active. It enforces nothing, and it cannot be
  renewed (`LapsedBlockIsNotRenewed`; exactly when an order takes effect: `OrderTakesEffectIff`).
- A stored answer whose `meta` is present and not a mapping is never replayed (`StoredAnswerReplaysIff`,
  `NullMetaRunsTwice`), and scoped keys of different endpoints can coincide (`KeysCollideIffPrefixesNest`).
- The sweep does not handle every foreign-key order: a failed delete undoes the deletes before it, which are not
  tried again but stay in the counts (`ForgottenTable`; exactly when it clears everything: `ClearsIffOrderWorks`). The
  tenants then stay as well (`ForgottenTableStopsReset`; exactly when they go: `TenantsGoIffOrderWorks`).
- The approval variant of a journey is a chain only if the first step that maps to `inspection_done` is the step
  of that name and there is no approval yet (`EarlyStatusBreaksSplice`; `SplicedIsChainIff`). The catalogue's journey
  qualifies.
- A fix can land beyond its handler (`FixStaysIff`, `BareFixLeavesItsHandlerIff`), and two findings can reach one
  definition, which then has two parameters `u` (`TwoFindingsOneHandler`).
- A one-line signature gets its parameter only if it ends in `):` and this parenthesis closes its list, not a call in
  its return annotation (`AnnotationTakesTheParameter`; `OneLineReceivesIff`). The list then obeys Python's rules unless
  it was empty, ended in a comma, had a `**` parameter or one named `u` (`EmptyParameterListBreaks`,
  `TrailingCommaBreaks`, `KwargsBreaks`, `NamesakeBreaks`; exactly: `OneLineStaysWellFormedIff`). A multi-line list does
  only if the lines before its closing line end in a comma outside brackets, have no `**` parameter, and the closing
  line holds no parameter without a default (`MissingCommaBreaks`, `KwargsLineBreaks`, `RequiredOnClosingLineBreaks`;
  exactly: `MultiLineStaysWellFormedIff`).
- Both names are to be imported in every touched file. They are not if the import is in a comment or inside a function, if its text has a
  name only as part of a longer one or under an alias, if it continues on the next line or ends in a comma, or if the
  new line goes into an import that is spread over several lines (`CommentIsCompleted`,
  `LocalImportIsCompleted`, `LongerNameHides`, `OpenImportBreaks`, `SpreadImportSwallows`; exactly when they are:
  `NewImportImportedIff`, `ImportedAfterIff`). An import that names nothing is none afterwards (`StillImportsIff`, `IdempotentIff`).
- A dry run of the media migration uploads the files (`Migration.Database.Run`). If old URLs are distinct, new URLs
  are distinct and no upload returns its own URL, rewriting one asset after another is a simultaneous substitution
  exactly when no new URL is the old URL of a later asset (`SimultaneousIffNoChain`).
- Tuples inside an event are not scrubbed (`TuplesAreNotScrubbed`; exactly when nothing shows:
  `ScrubbedShowsNoPiiIff`).

## Model

| member | source | states |
|---|---|---|
| `Cidr.CoversMeansLeadingBits` | app/middleware.py:166-172 | An address is in a stored prefix exactly when the families agree and the leading bits are the same, and exactly when it lies between network and broadcast address; host bits of the text never matter |
| `Cidr.QuotientIffLeadingBits` | app/middleware.py:169-169 | Equal quotients by a power of two are equal leading bits, for any width |
| `Cidr.HostCoversOnlyItself` | app/middleware.py:164-165 | A bare address read as a network covers exactly itself |
| `Cidr.ShorterPrefixCoversMore` | app/middleware.py:169-169 | Shortening a prefix never uncovers an address |
| `Cidr.CanonicalKeepsCoverage` | app/engines/security/admin_service.py:575-581 | The text that is stored for a network denotes the same network, covers the same addresses, and is a bare address exactly for one-address networks |
| `Blocklist.ScopesReach` | app/middleware.py:135-146 | A scope reaches a request if and only if it is "all", it is "tenant" and the tenants agree, or it is the one scope the role belongs to |
| `Blocklist.Winner` | app/middleware.py:194-203 | The row loop stops at an unexpired in-scope row, and no row before it is one |
| `Blocklist.BlockedIffCandidateRow` | app/middleware.py:148-228 | For any index whatever: refused exactly when an enforced, in-scope row that covers the address has its text among the candidates |
| `Blocklist.BlockedIffFound` | app/middleware.py:148-228 | Over any coherent index: refused if and only if some active, unexpired, in-scope row covers the address that is not a prefix stored as "ip", or is one that the CIDR set holds too |
| `Blocklist.BlockedIffCovered` | app/middleware.py:148-228 | Unless a prefix is stored as "ip", the two Redis look-ups decide "some active, unexpired, in-scope row covers this address" |
| `Blocklist.GuardedIff` | app/middleware.py:176-231 | A request is passed on inside the guarded block if and only if candidates were found, nothing failed, and no candidate row stops it |
| `Blocklist.MistypedPrefixEnforcedIff` | app/engines/security/service.py:342-356 | When only prefixes stored as "ip" should stop a request, it is refused if and only if the CIDR set holds the text of one of them |
| `Blocklist.MistypedPrefixIsNotEnforced` | app/engines/security/service.py:342-356 | Such a prefix alone is in its Redis set and stops nobody inside it |
| `Blocklist.FaultsFailOpen` | app/middleware.py:173-174 | Redis, query and commit faults let the request through, and no fault changes which block is reported |
| `Blocklist.EvictionSparesEnforcedRows` | app/middleware.py:204-217 | The slot of an enforced row is never stale, however early the row loop broke |
| `Blocklist.DispatchOnlyRetires` | app/middleware.py:194-203 | A request keeps a row's network, type, scope, tenant, expiry, rank and creation time and changes its status to expired at most |
| `Blocklist.EnforcedStays` | app/middleware.py:194-226 | A row that is enforced before a request is enforced after it, under any faults |
| `Blocklist.EntryLostIff` | app/middleware.py:207-217 | An enforced row's Redis entry is lost exactly when a stale slot of another type in the same set has its text |
| `Blocklist.DispatchCoherence` | app/middleware.py:191-217 | Under any faults, also when the session rolls back after the removals, a request keeps the index coherent if and only if it evicts no such slot |
| `Blocklist.AgreeingEvictionIsSafe` | app/middleware.py:204-217 | If rows of one text agree on its type, every request keeps the index coherent |
| `Blocklist.NormalisedRowsAgree` | app/engines/security/admin_service.py:580-581 | Rows in the form the admin call writes agree on types, and none is out of reach |
| `Blocklist.OddTypeUncovers` | app/middleware.py:207-215 | With two odd types on one network the request is refused, the index loses the entry, and the next such request passes |
| `Blocklist.CoherentLater` | app/middleware.py:195-195 | A coherent index stays coherent as time passes |
| `Blocklist.MatchPrecedesAll` | app/middleware.py:187-203 | The matched row precedes every enforced in-scope candidate in the order of the query |
| `Blocklist.WinnerIsFirst` | app/middleware.py:187-203 | The block reference is an enforced in-scope candidate, global before scoped and newest first among them |
| `Blocklist.StatusChangesAreTheLapsed` | app/middleware.py:194-203 | Exactly the lapsed rows met before the match change status, from active to expired; all other rows keep theirs |
| `Blocklist.LapsedById` | app/middleware.py:194-199 | The ids marked expired are those of candidate rows past expiry |
| `Blocklist.DispatchStrikesTheMatch` | app/middleware.py:218-220 | Under any faults a row's hit count rises by one and its last-hit time becomes the time of the request if it is the reported block; otherwise both stay |
| `Blocklist.DispatchAppendsTheHit` | app/middleware.py:221-226 | A refusal appends one hit with the block, its network and scope, the time, and the path, method and user agent of the request; otherwise no hit is written |
| `Blocklist.DispatchRecordsHits` | app/middleware.py:186-244 | Under any faults a 403 goes out exactly when a hit row was committed, it names the reported block, and every counter moves with its hit rows |
| `BlocklistEffects.CheckedIff` | app/middleware.py:148-158 | A request is checked under an address if and only if its path is none of /health, /ready and /metrics and its client text is that address, in the 32-bit or the 128-bit range |
| `BlocklistEffects.NetworkIff` | app/engines/security/admin_service.py:575-578 | A text is a network if and only if its address is in range and its prefix length is at most 32 or 128 |
| `BlocklistEffects.BlockedIffFields` | app/middleware.py:148-228 | Over a coherent index: refused if and only if some row has status active, no expiry or one strictly after now, a scope and tenant that reach the request, a network that covers its address, and is found |
| `BlocklistEffects.ReportedRank` | app/middleware.py:187-203 | The reported block is global if any candidate that stops the request is, and none of its rank is newer |
| `BlocklistEffects.RowAfterRequest` | app/middleware.py:194-226 | The whole row after a request, under any faults: the reported block has one hit more and the time as its last hit; a row met past its expiry before the match is expired and inactive, if the session committed; every other row is as it was |
| `BlocklistEffects.EntryAfterRequest` | app/middleware.py:204-217 | A text is in a Redis set after a request if and only if it was and no lapsed row that the loop met takes it out: one of that set, with no enforced row of its type and text fetched, and Redis obeying |
| `BlocklistEffects.DispatchKeepsStamps` | app/middleware.py:218-226 | A request keeps, under any faults: each row is stamped with the time of the last hit that names it |
| `BlocklistStore.Store.FindCandidates` | app/middleware.py:160-172 | The candidate list holds exactly the texts of the sets that match the address |
| `BlocklistStore.Store.Scan` | app/middleware.py:191-203 | The loop's session, expired slots and match are those of the first matching row |
| `BlocklistStore.Store.RemoveStale` | app/middleware.py:204-217 | The sets lose exactly the expired slots that no fetched row holds and Redis does not refuse |
| `BlocklistStore.Store.Stamp` | app/middleware.py:218-220 | The matched row gets one hit more and the time, in the session |
| `BlocklistStore.Store.Dispatch` | app/middleware.py:148-244 | State and verdict are those of the specified request step, including whether the request is passed on inside the guarded block |
| `BlocklistStore.Store.WarmCache` | app/engines/security/service.py:38-56 | The rebuilt sets are those of the enforced rows; rows and hits are untouched |
| `BlocklistAdmin.InsertCoherence` | app/engines/security/admin_service.py:611-622 | Adding a row keeps the index coherent if and only if the database refused it for an active row of the same network and tenant, it was not committed, is past expiry, was indexed already, or its text reached the set of its type |
| `BlocklistAdmin.AcceptedIsEnforced` | app/engines/security/admin_service.py:569-626 | Every accepted order leaves an enforced and indexed row with its scope, tenant and expiry and the time of the call, global exactly for the scope "all", and all other rows as they were |
| `BlocklistCalls.AcceptsIff` | app/engines/security/admin_service.py:575-598 | An order is accepted if and only if its text is a network, the stripped reason has five characters, threat and scope are known ones, a tenant scope has a tenant, the actor is not blocked, and no row with status active holds the network for the tenant |
| `BlocklistCalls.BlocksActorIff` | app/engines/security/admin_service.py:600-606 | The actor is taken to be blocked if and only if that is not overridden and the actor has a readable address that the ordered text covers |
| `BlocklistCalls.CreateChangesOnly` | app/engines/security/admin_service.py:611-622 | An accepted order adds one row, if it commits, and one entry in the set of its type, if Redis obeys, and nothing else |
| `BlocklistCalls.NewBlockStopsIff` | app/engines/security/admin_service.py:610-616 | The new row stops a request at a time if and only if the ordered network covers its address, the ordered scope and tenant reach it, and the ordered expiry is absent or later |
| `BlocklistCalls.NewBlockRank` | app/engines/security/admin_service.py:611-616 | It is global exactly when ordered for all: it precedes a scoped row if and only if so or that row is not newer, and a global row if and only if both; it has the time of the order and no hits |
| `BlocklistAdmin.OrderTakesEffectIff` | app/engines/security/admin_service.py:592-598 | A sound order takes effect if and only if no row with status active, lapsed ones included, holds its network for its tenant |
| `BlocklistAdmin.LapsedBlockIsNotRenewed` | app/engines/security/admin_service.py:592-598 | A block past its expiry that still has status active enforces nothing, and ordering it again changes nothing |
| `BlocklistAdmin.RequestMakesRoom` | app/middleware.py:194-199 | Once a request has met the lapsed row, the same order is accepted |
| `BlocklistAdmin.RevokeCoherence` | app/engines/security/admin_service.py:646-669 | A committed revocation of an active row makes that row revoked and inactive; it keeps the index coherent if and only if the text it removes is not needed by a row of another type |
| `BlocklistAdmin.AgreeingRevokeIsSafe` | app/engines/security/admin_service.py:646-669 | If rows of one text agree on its type, revoking keeps the index coherent |
| `BlocklistAdmin.RevokeLeavesIndexEntry` | app/engines/security/admin_service.py:652-667 | Revoking an unexpired row never changes the index |
| `BlocklistAdmin.RevokeRemovesEntryIff` | app/engines/security/admin_service.py:652-667 | Revoking removes the text if and only if Redis obeys and no row of its type, the revoked one included, is enforced |
| `BlocklistCalls.RevokeChangesOnly` | app/engines/security/admin_service.py:646-653 | A committed revocation of an active row makes it revoked and inactive and changes no other field, row or hit; one that is rolled back changes no row |
| `BlocklistCalls.RevokeElsewhereChangesNothing` | app/engines/security/admin_service.py:649-651 | A revocation of any other row changes nothing |
| `BlocklistCalls.RevokedStopsNobody` | app/engines/security/admin_service.py:652-667 | After a revocation a request is refused if and only if some other row among its candidates stops it |
| `BlocklistCalls.RescopeChangesOnly` | app/engines/security/admin_service.py:628-644 | A committed rescoping to one of the five scopes changes the scope of that row and nothing else; any other changes nothing |
| `BlocklistCalls.RescopedStopsIff` | app/engines/security/admin_service.py:628-644 | The row then stops exactly whom the new scope reaches |
| `BlocklistAdmin.WarmIsExact` | app/engines/security/service.py:38-56 | A complete rebuild indexes exactly the texts of enforced rows |
| `BlocklistAdmin.WarmCoherence` | app/engines/security/service.py:38-56 | A rebuild that breaks off leaves a coherent index if and only if the rows read so far hold every enforced text |
| `BlocklistAdmin.UnblockCoherence` | app/engines/security/service.py:372-384 | The older unblock keeps the index coherent if and only if it found no single holder, Redis refused, or no enforced row of type "ip" has the text |
| `BlocklistAdmin.WarmUndoesUnblock` | app/engines/security/service.py:372-384 | After the older unblock, the next rebuild indexes the row again |
| `BlocklistCalls.LegacyBlockChangesOnly` | app/engines/security/service.py:342-362 | The older block call stores its row as given, unless an active row of the same network and tenant is there, and adds the text to the exact-address set |
| `BlocklistCalls.LegacyUnblockChangesOnly` | app/engines/security/service.py:372-384 | For a text with one active holder the older unblock makes that row inactive, leaves its status and all other rows, and takes the text out of the exact-address set |
| `BlocklistCalls.LegacyUnblockElsewhere` | app/engines/security/service.py:372-376 | For any other text it changes nothing |
| `BlocklistRuns.StepCoherence` | app/middleware.py:191-217 | Of requests, creations, revocations, rescopings, rebuilds and the older calls, exactly the safe ones keep a coherent index coherent |
| `BlocklistRuns.RunKeepsCoherent` | app/middleware.py:191-217 | Index coherence over every run of safe steps with time moving forward |
| `BlocklistRuns.RunKeepsNormalised` | app/engines/security/admin_service.py:580-581 | Only the older block call can store a type that is not that of its text |
| `BlocklistRuns.RunKeepsFindable` | app/engines/security/service.py:342-356 | Only the older block call can put a row out of reach |
| `BlocklistRuns.AgreeingRunIsSafe` | app/middleware.py:204-217 | While rows of one text agree on its type, requests and revocations need no condition, whatever faults they meet |
| `BlocklistRuns.EnforcedAfterAnyRun` | app/main.py:41-48 | From the start-up rebuild on, after any run of safe steps, over rows of any type: a request is refused exactly when some active, unexpired, in-scope row covers its address and is found |
| `BlocklistRuns.CoveredAfterAgreeingRun` | app/main.py:41-48 | In particular, after any run in which types agree and no prefix is stored as "ip", a request is refused exactly when some active, unexpired, in-scope row covers its address |
| `BlocklistRuns.StepAccounts` | app/middleware.py:218-226 | No step removes a row, reactivates one, or lets a counter drift from its hit rows |
| `BlocklistRuns.RunConservesHits` | app/database.py:85-95 | Over any run with arbitrary faults the hit rows written are as many as the 403s sent, and each counter has moved by its own hit rows |
| `BlocklistRuns.RunKeepsOneActive` | alembic/versions/288_security_command_center_runtime.py:62-66 | Over any run of all seven kinds of step, with any faults: at most one active row for a network and a tenant, or for a network and none |
| `BlocklistRuns.RunKeepsStamps` | app/middleware.py:218-226 | Over any run of all seven kinds of step, with any faults: the last-hit time of each row is the time of the last hit row that names it |
| `BlocklistRuns.RevokedForGood` | app/engines/security/admin_service.py:646-653 | After a committed revocation and any run whatever the row is still revoked and stops nobody |
| `BlocklistRuns.RunKeepsBlock` | app/engines/security/admin_service.py:628-644 | Over any run with any faults a row keeps its network, type, tenant, rank, expiry and creation time, and its scope is that of the last committed rescoping to a known scope |
| `Idempotency.KeysCollideIffPrefixesNest` | app/middleware.py:253-261 | Two endpoints, with tenant headers or without, can share a scoped key made of non-empty keys if and only if the prefix of one begins that of the other |
| `Idempotency.ColonFreeKeysAreInjective` | app/middleware.py:259-261 | Without colons in tenants and paths, two scoped keys are equal if and only if path and key are and the tenants are; a request without a header shares its keys with the tenant "platform" and with no other |
| `Idempotency.AppliesIff` | app/middleware.py:30-30 | The layer acts exactly on POST, PUT, PATCH and DELETE with a key that is not empty |
| `Idempotency.ReplayOnlyMarks` | app/middleware.py:272-281 | A replay has the stored status and body, changed only by `meta.idempotent = true` |
| `Idempotency.Cache.Check` | app/middleware.py:263-283 | The look-up answers from the store exactly when the entry is there and can be marked; faults count as misses |
| `Idempotency.Cache.Save` | app/middleware.py:287-305 | A stored answer is what the next look-up of its key replays, look-ups of other keys are unaffected, and the answer goes out unchanged exactly when it is no success, was stored, or had no body |
| `Idempotency.StepKeepsStoreSound` | app/middleware.py:287-301 | Every step keeps: each entry is the answer stored last under its key, and only 2xx JSON answers are stored, each after the handler run of the same request that gave it |
| `Idempotency.StepKeepsReplaysSound` | app/middleware.py:265-281 | Every step keeps: each replay is the marked form of the answer stored last under the same key |
| `Idempotency.RunIsSound` | app/middleware.py:253-305 | Both, over every interleaving with arbitrary faults and lost entries |
| `Idempotency.CleanRunInvariant` | app/middleware.py:253-305 | With a store that neither fails nor forgets, and answers that can be marked if they are stored at all: one check and at most one run per request, runs only after a miss, and no miss after a store of the same key |
| `Idempotency.LateChecksNeverRun` | app/middleware.py:253-305 | In every such interleaving a request whose check follows a store of its key never runs the handler |
| `Idempotency.RunCountIsRunners` | app/middleware.py:285-285 | Handler runs of a key are counted by the distinct requests that ran it |
| `Idempotency.RunsBoundedByEarlyChecks` | app/middleware.py:253-305 | Handler runs per key never exceed the requests that checked before the key's first store |
| `Idempotency.StoredAnswerReplaysIff` | app/middleware.py:274-274 | A stored answer is replayed to the next check if and only if its `meta` is absent or a mapping |
| `Idempotency.MissedIff` | app/middleware.py:263-283 | The handler runs if and only if the look-up raises, nothing is stored under the key, or the stored `meta` is present and no mapping |
| `Idempotency.StoredIff` | app/middleware.py:287-296 | An answer replaces the entry of its key if and only if its status is 200 to 299, its body is JSON, and the store works |
| `Idempotency.EntryAfterStep` | app/middleware.py:253-305 | Of all steps only the loss of an entry and the storing of a good answer under its key change it, and each step moves its own request only |
| `Idempotency.RequestTrace` | app/middleware.py:253-305 | One request from arrival to end: a replay of what is stored, or a miss, one run of the handler and the store of a good answer, in that order |
| `Idempotency.NullMetaRunsTwice` | app/middleware.py:274-274 | A run in which one key runs its handler again after a store |
| `Pipeline.RegisteredOrder` | app/middleware.py:308-335 | Registering in front, one layer after another, puts the request id outermost, then the blocklist, then logging, quota, idempotency, CORS and security headers |
| `Pipeline.PassCases` | app/middleware.py:50-109 | One pass below the blocklist counts the request, leaves the blocklist alone, runs the handler once unless it ends in a replay or a preflight, and raises exactly if the handler does |
| `Pipeline.ServeCases` | app/middleware.py:308-335 | The whole stack: a refusal touches only the blocklist; anything else is one pass below it, or a second one after the first raised into the guarded block |
| `Pipeline.BlockedTouchesNothingElse` | app/middleware.py:308-335 | A blocked request leaves quota counters, stored answers and handler state as they were |
| `Pipeline.ReplayCountsOnceAndRunsNothing` | app/middleware.py:308-335 | A replay is the stored answer, says that it is one and under which key, counts once towards the quota, and runs no handler |
| `Pipeline.HandledOnceIff` | app/middleware.py:227-231 | A request that reaches the handler runs it once or twice, and once if and only if it was not passed on a second time and handled again |
| `Pipeline.CountedOnceIff` | app/middleware.py:100-109 | A request that is not refused is counted once or twice, and once if and only if it was not passed on a second time |
| `Pipeline.RaisingRequestRunsTwice` | app/middleware.py:227-231 | A covered address out of the row's scope whose handler raises: handled twice and counted twice |
| `Pipeline.AnswerComesBackIff` | app/middleware.py:287-305 | The handler's answer comes back if and only if the request is not keyed, the status is not 2xx, the answer was stored, or its body was empty; otherwise it goes out empty |
| `Pipeline.ExportIsLost` | app/middleware.py:290-303 | A keyed request answered 200 with a CSV gets an empty body |
| `Pipeline.UnstoredAnswerIsLost` | app/middleware.py:290-303 | A keyed JSON answer that Redis refuses to store gets an empty body |
| `Pipeline.IdentifiedIffReturned` | app/middleware.py:38-47 | What the client gets carries an X-Request-ID - the one the client sent, unless it is absent or empty - and the version if and only if the stack returned it, blocked and replayed answers included; an unhandled exception gives a 500 INTERNAL_ERROR without them |
| `Pipeline.SecurityHeadersOnlyOnHandledReplies` | app/middleware.py:80-91 | Each of the five headers is on every answer of a handler, on no refusal and no replay, and on a preflight only if CORS set it |
| `Pipeline.TrafficIsConserved` | app/middleware.py:94-109 | Over any sequence of requests a tenant's counter grows by its requests that were not blocked plus those counted twice, and handlers run once per request that did not end early plus once per request handled twice |
| `Pipeline.OnceEachIff` | app/middleware.py:227-231 | Every request ends early or is handled exactly once, if and only if none is handled twice |
| `Pipeline.RefusalCountsIffQuotaOutside` | app/middleware.py:331-335 | In any stack, a refusal stays out of a tenant's counter if and only if the quota layer is not outside the blocklist, as in the registered order |
| `PipelineReplies.RefusalNamesTheBlock` | app/middleware.py:233-244 | A refusal is a 403 with success false, the code IP_BLOCKED, and the block that was reported |
| `PipelineReplies.AnswersAreProtected` | app/middleware.py:80-91 | A handler's answer carries the five security headers with their values |
| `PipelineReplies.StoredAnswerIsLabelled` | app/middleware.py:297-302 | An answer that was stored says under which key |
| `PipelineReplies.StoreAfterServe` | app/middleware.py:259-305 | A request changes the store only by its handler's answer, under its own key |
| `PipelineReplies.OtherEndpointsAreUntouched` | app/middleware.py:259-261 | Without colons in tenants and paths, serving one path leaves what is stored for another as it was |
| `PipelineReplies.EntriesAreAnswers` | app/middleware.py:259-305 | From an empty store, after any requests, every entry is the answer the handler gave to one of them with that key |
| `PipelineReplies.ReplayIsOwnAnswer` | app/middleware.py:259-281 | Without colons in tenants and paths, a replay is the marked answer to an earlier request of the same path, key and tenant, an absent header and "platform" being one |
| `Sweep.Session.Sweep` | scripts/reset_platform_to_home_services_only.py:79-121 | The loops leave database, counts and remaining tables as the specified passes do, from a session without pending writes |
| `Sweep.Session.RunPass` | scripts/reset_platform_to_home_services_only.py:91-112 | One pass over the remaining tables, each failure rolling back to the last commit |
| `SweepClears.FailureResets` | scripts/reset_platform_to_home_services_only.py:108-112 | A pass that ends in a failed delete leaves the database as last committed, whatever it deleted before |
| `Sweep.Session.DryRun` | scripts/reset_platform_to_home_services_only.py:88-121 | Changes nothing and counts the matching rows of each table, exactly if no table is listed twice |
| `SweepEffects.LastingAfter` | scripts/reset_platform_to_home_services_only.py:99-112 | One more statement adds its table to the lasting deletes, or empties them if it fails |
| `SweepEffects.NetEffect` | scripts/reset_platform_to_home_services_only.py:79-121 | For every table list and failure pattern the rows gone are exactly the matching rows of the tables deleted after the last failure; rows that do not match stay |
| `SweepEffects.CountsBoundDeletions` | scripts/reset_platform_to_home_services_only.py:105-107 | Reported counts bound the net deletions from above and are exact if nothing failed |
| `SweepRounds.RowsAfterSweep` | scripts/reset_platform_to_home_services_only.py:79-121 | A row is gone if and only if its column held one of the ids and a delete on its table succeeded with no failure after it; a row with NULL there stays |
| `SweepRounds.PassIs` | scripts/reset_platform_to_home_services_only.py:91-112 | A pass tries every table once and in order; a failed one is kept for the next pass, a successful one counts the rows with one of the ids, and the pass progressed if and only if some count is not zero |
| `SweepRounds.SweepIsItsPasses` | scripts/reset_platform_to_home_services_only.py:88-121 | The sweep ends with the first pass that leaves no table, deletes nothing, or is the eighth, and the count of a table is the sum over all its statements |
| `SweepClears.WorkingOrderClears` | scripts/reset_platform_to_home_services_only.py:82-84 | A list that can be cut into a wholly blocked front and a rest that clears, followed by the front, is cleared |
| `SweepClears.ClearedOrderWorks` | scripts/reset_platform_to_home_services_only.py:82-84 | A sweep that cleared everything had such a list |
| `SweepClears.ClearsIffOrderWorks` | scripts/reset_platform_to_home_services_only.py:79-121 | The sweep removes every matching row if and only if the list has such a cut |
| `SweepForeignKeys.ChildrenFirstClearsEverything` | scripts/reset_platform_to_home_services_only.py:82-84 | Under RESTRICT foreign keys, children before parents: nothing fails and every matching row goes |
| `SweepForeignKeys.RestrictNeedsRows` | scripts/reset_platform_to_home_services_only.py:108-112 | RESTRICT references raise only where rows are deleted, so the exact condition on orders applies to them |
| `SweepForeignKeys.ForgottenTable` | scripts/reset_platform_to_home_services_only.py:105-113 | Three tables and one RESTRICT reference from the third to the second: the first is reported deleted, nothing is reported left, and all its rows are still there |
| `SweepStages.RemoveTenants` | scripts/reset_platform_to_home_services_only.py:138-157 | Sweep, commit, delete the tenants, commit: the database ends as specified, and the second stage raises exactly when a reference holds a tenant |
| `SweepStages.TenantsGoIff` | scripts/reset_platform_to_home_services_only.py:138-157 | The tenants are deleted if and only if every row that references one was a matching row of a table whose delete succeeded after the last failure |
| `SweepStages.TenantsGoIffOrderWorks` | scripts/reset_platform_to_home_services_only.py:138-157 | Before the call, where the swept column is a foreign key: the tenants will go if and only if nothing outside the swept rows references them and the table list has an order the sweep can handle |
| `SweepStages.ResetRows` | scripts/reset_platform_to_home_services_only.py:138-157 | After both stages: of the other tables every row but those with a tenant's id in a table whose delete lasted; of the tenants none if every reference to one was swept, and otherwise all |
| `SweepStages.ChildrenFirstResets` | scripts/reset_platform_to_home_services_only.py:138-157 | With children listed before parents and all references in listed tables, no tenant and no matching row is left |
| `SweepStages.ForgottenTableKeepsTenants` | scripts/reset_platform_to_home_services_only.py:138-157 | A forgotten table that references a tenant keeps all tenants, while the sweep stays committed |
| `SweepStages.ForgottenTableStopsReset` | scripts/reset_platform_to_home_services_only.py:138-157 | Tables a, b, c with c referencing b and a referencing a tenant: a is reported deleted, and its rows and all tenants are still there |
| `Journey.WorkflowJourney` | scripts/configure_ac_catalog.py:141-200 | The construction yields the contracted or the spliced journey, or fails if no step maps to the inspection status |
| `Journey.Renumber` | scripts/configure_ac_catalog.py:169-170 | The loop numbers the steps from 1 and changes nothing else |
| `JourneyDetails.ContractedAllowsExactly` | scripts/configure_ac_catalog.py:156-168 | The contracted journey allows the transitions of the base away from the inspection and one more: the technician starts the work on arrival, without reason or notification |
| `JourneyDetails.SplicedAllowsExactly` | scripts/configure_ac_catalog.py:186-199 | The spliced journey allows those of the base but for inspection to work, and two more: the technician submits the estimate and starts the approved work, both notifying |
| `JourneyDetails.SplicedStepsAre` | scripts/configure_ac_catalog.py:173-184 | Behind the first step with the inspection status stands the customer's approval, required and visible to all; every other step is the base's with its number changed at most |
| `JourneyDetails.ContractedStepsAre` | scripts/configure_ac_catalog.py:155-170 | Every step but the two of the inspection is there, in order, with its number changed at most, and no other |
| `JourneyDetails.TransitionsKeepTheirOrder` | scripts/configure_ac_catalog.py:156-199 | Transitions stay in the order of the base, the added ones last |
| `JourneyShape.ContractedIsChain` | scripts/configure_ac_catalog.py:151-171 | Contracting any chain with the diagnostic segment gives a chain |
| `JourneyShape.ContractedKeepsShape` | scripts/configure_ac_catalog.py:151-171 | With the same first and last step, declared endpoints, and display order 1..n rising by one along every transition |
| `JourneyShape.SplicedIsChain` | scripts/configure_ac_catalog.py:173-200 | Splicing the approval in gives a chain |
| `JourneyShape.SplicedIsChainIff` | scripts/configure_ac_catalog.py:173-200 | It does so if and only if the first step with the inspection status is the inspection step and there is no approval yet |
| `JourneyShape.EarlyStatusBreaksSplice` | scripts/configure_ac_catalog.py:173-183 | Any such chain, with the arrival given the inspection status, still is one and is spliced into something that is not |
| `JourneyShape.SplicedKeepsShape` | scripts/configure_ac_catalog.py:173-200 | The spliced journey has the same ends and is numbered along its transitions |
| `JourneyRuns.RunIsSlice` | scripts/configure_ac_catalog.py:122-138 | The runs of a chain are its slices |
| `JourneyRuns.BaseRunContracts` | scripts/configure_ac_catalog.py:151-171 | A base run that neither begins nor ends in the inspection is, with it erased, a run of the contracted journey |
| `JourneyRuns.ContractedRunExpands` | scripts/configure_ac_catalog.py:151-171 | Every run of the contracted journey comes from such a base run |
| `JourneyRuns.ContractedRunsExactly` | scripts/configure_ac_catalog.py:151-171 | The runs of the contracted journey are exactly the base runs with the two inspection steps erased |
| `JourneyRuns.WorkNeedsApproval` | scripts/configure_ac_catalog.py:141-148 | No run from the first step reaches the work without the approval |
| `JourneyRuns.SplicedRunErases` | scripts/configure_ac_catalog.py:173-200 | Erasing the approval from any run but the approval alone gives a base run |
| `JourneyRuns.BaseRunSplices` | scripts/configure_ac_catalog.py:173-200 | Every base run arises that way |
| `JourneyCatalogue.CatalogueQualifies` | scripts/configure_ac_catalog.py:96-138 | The catalogue's own steps and transitions are such a base, for both variants |
| `JourneyCatalogue.CatalogueRoles` | scripts/configure_ac_catalog.py:122-138 | Each transition is taken by the role that owns the next step, but for the technician who finalises the job and the review that is requested by the system, which alone is automatic |
| `JourneyCatalogue.CatalogueAsks` | scripts/configure_ac_catalog.py:96-120 | An answer within 30 minutes, two notes and a photo at their steps, numbers from 1, and no approval |
| `JourneyCatalogue.EarlyCatalogueFails` | scripts/configure_ac_catalog.py:96-138 | With one status changed they are not |
| `Patcher.File.FixBare` | e2e/apply_admin_auth_fix.py:47-56 | Edits the first line with the bare dependency among 20 from the reported one, and says whether it did |
| `PatcherEdits.BareFixGuards` | e2e/apply_admin_auth_fix.py:47-56 | When a bare fix takes effect its line was `pre + "Depends(get_current_user)" + post` with no earlier occurrence and is `pre + "Depends(require_super_admin)" + post`; the bare text occurs once less, and no line before it in range has it |
| `Patcher.File.FindDef` | e2e/apply_admin_auth_fix.py:67-78 | Finds the first definition line among 10 from the reported one |
| `PatcherEdits.IsDefIff` | e2e/apply_admin_auth_fix.py:67-78 | A definition line is blanks, `async def`, a space, a word and an opening parenthesis, and anything behind it |
| `Patcher.File.FindClose` | e2e/apply_admin_auth_fix.py:80-93 | The running depth finds the first line at which the parentheses from the definition on balance |
| `PatcherEdits.DepthIsSurplus` | e2e/apply_admin_auth_fix.py:80-93 | The running depth is the surplus of opening over closing parentheses in the text of the lines read |
| `Patcher.File.FixMissing` | e2e/apply_admin_auth_fix.py:59-117 | Inserts one line before the line that closes the signature, or edits a one-line signature |
| `PatcherEdits.SignatureEditIs` | e2e/apply_admin_auth_fix.py:83-117 | The line goes before the first of 25 lines at which the signature closes; a one-line signature is rewritten; if it closes nowhere there, nothing happens |
| `PatcherEdits.NewParameterLineIs` | e2e/apply_admin_auth_fix.py:94-96 | The inserted line is the definition's indentation, four spaces, `u: UserContext = Depends(require_super_admin)` and a comma |
| `PatcherEdits.RewritingExtends` | e2e/apply_admin_auth_fix.py:112-112 | The rewriting puts a comma and the parameter before the parenthesis and colon that end the line, or only drops trailing blanks |
| `PatcherEdits.ClosesSignatureIff` | e2e/apply_admin_auth_fix.py:112-112 | It does the former if and only if the line ends in a closing parenthesis and a colon, up to blanks |
| `PatcherEdits.IsSignatureIff` | e2e/apply_admin_auth_fix.py:98-101 | A line is taken for a one-line signature if and only if it has an opening and a closing parenthesis and a colon, in that order |
| `Patcher.File.FixFile` | e2e/apply_admin_auth_fix.py:120-139 | The file is the result of the fixes in descending line order, completed by the imports, and the two counts are the fixes that took effect |
| `Patcher.EditFor` | e2e/apply_admin_auth_fix.py:47-117 | A fix edits or inserts below the lines above its finding; an insertion comes after the reported line and before the last |
| `Patcher.BottomUp` | e2e/apply_admin_auth_fix.py:127-128 | The findings in an order of descending lines, none lost or added |
| `Patcher.Insert` | e2e/apply_admin_auth_fix.py:127-128 | Puts one finding into a descending list |
| `Patcher.FirstIn` | e2e/apply_admin_auth_fix.py:67-76 | The first line of a range that passes a test |
| `Patcher.CloseOf` | e2e/apply_admin_auth_fix.py:83-91 | The first line at which a signature closes |
| `PatcherSafety.BottomUpDescends` | e2e/apply_admin_auth_fix.py:127-128 | Findings with distinct lines are put in strictly descending order |
| `PatcherSafety.BottomUpIsStable` | e2e/apply_admin_auth_fix.py:127-128 | Findings on the same line are fixed in the order in which they were reported |
| `PatcherSafety.EditStaysBelow` | e2e/apply_admin_auth_fix.py:47-117 | A fix leaves all lines above its reported line alone and adds one line at most |
| `PatcherSafety.ReportedLinesAreOriginal` | e2e/apply_admin_auth_fix.py:127-135 | When a finding's turn comes, all lines up to and including its reported one are still the original text |
| `PatcherSafety.ParameterLinesAreInert` | e2e/apply_admin_auth_fix.py:94-96 | An inserted line is never taken for a definition or a bare dependency |
| `PatcherSafety.PatchedFileIsTheOriginal` | e2e/apply_admin_auth_fix.py:120-135 | For any findings: the original lines, all and in order, each edit of one either putting the guarded dependency in place of the first bare one or the parameter before the final parenthesis, plus exactly one parameter line per multi-line fix |
| `PatcherSafety.CountsAreEdits` | e2e/apply_admin_auth_fix.py:129-135 | The two reported counts together are the edits of all lines plus the inserted lines, and a severity without findings counts nothing |
| `PatcherWritten.WrittenFileIsTheOriginal` | e2e/apply_admin_auth_fix.py:120-139 | The file as written: that, and one import line added if there was none, or else the first one completed and no other line touched |
| `PatcherBlocks.EditInContext` | e2e/apply_admin_auth_fix.py:47-117 | A fix that succeeds in a handler's own lines is the same fix in the whole file |
| `PatcherBlocks.FoldIsBlockwise` | e2e/apply_admin_auth_fix.py:127-135 | Fixing from the bottom with stale line numbers fixes each block in place, for any fixer that does so for one block |
| `PatcherBlocks.PatchingIsBlockwise` | e2e/apply_admin_auth_fix.py:120-135 | If every finding can be fixed in its own block, then for any order of findings the file becomes its head and each block fixed on its own |
| `PatcherBlocks.FixStaysIff` | e2e/apply_admin_auth_fix.py:47-117 | A fix of either kind falls into its finding's block if and only if it succeeds on the block alone; otherwise it does nothing or lands beyond |
| `PatcherBlocks.BareFixLeavesItsHandlerIff` | e2e/apply_admin_auth_fix.py:47-56 | A bare fix edits another handler if and only if its own block has no bare dependency and one follows within 20 lines of the reported line |
| `PatcherDefinitions.OneLineReceivesIff` | e2e/apply_admin_auth_fix.py:98-113 | A one-line signature has the parameter in its list afterwards if and only if it ends in `):` and this parenthesis closes the list; a line that does not end so only loses trailing blanks |
| `PatcherDefinitions.AnnotationTakesTheParameter` | e2e/apply_admin_auth_fix.py:112-112 | With a call in the return annotation the parameter goes into that call |
| `PatcherDefinitions.TwoFindingsOneHandler` | e2e/apply_admin_auth_fix.py:127-135 | Two findings on two lines above one definition add the parameter twice, and the list is not well formed |
| `PatcherSignature.OneLineRewrites` | e2e/apply_admin_auth_fix.py:112-112 | The rewriting puts the parameter at the end of the list between the parentheses |
| `PatcherSignature.OneLineStaysWellFormedIff` | e2e/apply_admin_auth_fix.py:98-113 | A well-formed one-line list stays well formed if and only if its last item is not blank, no item is `**`, and none is named `u` |
| `ParameterLists.AppendIff` | e2e/apply_admin_auth_fix.py:98-113 | At the end of a parameter list a parameter with a default is accepted exactly then, by Python's rules for names, stars and defaults |
| `CommaLists.LastPieceBlankIff` | e2e/apply_admin_auth_fix.py:112-112 | Which is so if and only if the last character before the closing parenthesis that is not blank is there and not a comma |
| `PatcherSignature.EmptyParameterListBreaks` | e2e/apply_admin_auth_fix.py:112-112 | An empty list gets a leading comma and is not well formed |
| `PatcherSignature.TrailingCommaBreaks` | e2e/apply_admin_auth_fix.py:112-112 | A list with a trailing comma gets two commas in a row and is not well formed |
| `PatcherSignature.KwargsBreaks` | e2e/apply_admin_auth_fix.py:112-112 | Behind `**kwargs` the parameter is not accepted |
| `PatcherSignature.NamesakeBreaks` | e2e/apply_admin_auth_fix.py:112-112 | Nor beside a parameter named `u` |
| `PatcherSignature.InsertionPatchesList` | e2e/apply_admin_auth_fix.py:114-117 | The inserted line puts the parameter between the list's text before the closing line and the rest |
| `PatcherSignature.ParameterStandsIff` | e2e/apply_admin_auth_fix.py:59-66 | It is a parameter of its own if and only if the text before it ends outside brackets in a comma or is blank |
| `PatcherSignature.MultiLineStaysWellFormedIff` | e2e/apply_admin_auth_fix.py:59-66 | A well-formed multi-line signature stays well formed, with the parameter on its own, if and only if that holds, no `**` item comes before, no parameter is named `u`, and the closing line adds no parameter without a default |
| `ParameterLists.InsertIff` | e2e/apply_admin_auth_fix.py:59-66 | Between two parts of a parameter list a parameter with a default is accepted exactly then |
| `PatcherSignature.KwargsLineBreaks` | e2e/apply_admin_auth_fix.py:114-117 | A `**kwargs,` line before the closing one breaks the list |
| `PatcherSignature.MissingCommaBreaks` | e2e/apply_admin_auth_fix.py:114-117 | Without a comma on the line before, the new parameter runs into the last one |
| `PatcherSignature.RequiredOnClosingLineBreaks` | e2e/apply_admin_auth_fix.py:60-66 | A parameter without a default on the closing line ends up behind one with a default |
| `PatcherImports.EnsureImports` | e2e/apply_admin_auth_fix.py:23-44 | The loops find the import to complete, or the place after the last import for a new one |
| `PatcherImportLines.FirstMentionIsCompleted` | e2e/apply_admin_auth_fix.py:36-44 | With an import of the auth module: the first line that has one is, from there on, stripped of trailing blanks and given the names it lacks, or left alone if it has both; no other line changes |
| `PatcherImportLines.NewImportIsAdded` | e2e/apply_admin_auth_fix.py:25-35 | Without one: the import of both names stands right behind the last line that starts with "from " or "import ", or on top |
| `PatcherImported.NewImportImportedIff` | e2e/apply_admin_auth_fix.py:11-12 | In a file without an import from the module both names are imported afterwards if and only if a statement can start where the new line goes |
| `PatcherImported.CompletedImportedIff` | e2e/apply_admin_auth_fix.py:11-12 | With one, its line imports both if and only if it is a statement of the module, its names are a list of names, and each name is an item or nowhere in its text; other lines stay |
| `PatcherImported.ImportedAfterIff` | e2e/apply_admin_auth_fix.py:11-12 | For every file with one or more: a name is imported afterwards if and only if the first line imports it once completed, or a later line does |
| `PatcherImported.OnlyImportImportedIff` | e2e/apply_admin_auth_fix.py:11-12 | If it is the only one, the file imports both exactly then |
| `PatcherImported.LongerNameHides` | e2e/apply_admin_auth_fix.py:37-42 | A longer name or an alias passes for the name: nothing is added, and the name is not imported |
| `PatcherImported.CommentIsCompleted` | e2e/apply_admin_auth_fix.py:24-24 | An import in a comment is completed, and nothing is imported |
| `PatcherImported.LocalImportIsCompleted` | e2e/apply_admin_auth_fix.py:24-24 | An import inside a function is completed, and the module does not import the names |
| `PatcherImported.SpreadImportSwallows` | e2e/apply_admin_auth_fix.py:28-34 | If the last import is spread over several lines, the new line goes into its parentheses and imports nothing |
| `PatcherImported.SpreadImportExample` | e2e/apply_admin_auth_fix.py:28-34 | As for a three-line import from FastAPI |
| `PatcherImports.IdempotentIff` | e2e/apply_admin_auth_fix.py:23-44 | Doing it again changes nothing if and only if there was no import line, the first one named something, or the next one mentions both |
| `PatcherImports.StillImportsIff` | e2e/apply_admin_auth_fix.py:43-44 | A completed line is an import if and only if it named something before |
| `PatcherImports.CompletedIsNameListIff` | e2e/apply_admin_auth_fix.py:36-44 | The completed names are a list of names if and only if they were one: no bracket, comment, star or trailing comma |
| `PatcherImports.OpenImportBreaks` | e2e/apply_admin_auth_fix.py:43-44 | An import that continues on the next line gets the names behind its parenthesis |
| `Migration.Database.Run` | scripts/migrate_local_media_to_cloudinary.py:76-122 | Assets, columns and counts are what the moves make of them; every row counts as migrated or failed; a dry run leaves the database alone and uploads every file all the same |
| `Migration.Database.Repoint` | scripts/migrate_local_media_to_cloudinary.py:110-116 | Every column has its matching cells rewritten and its count raised by as many |
| `Migration.Database.Update` | scripts/migrate_local_media_to_cloudinary.py:112-114 | One statement rewrites exactly the cells that hold the old URL and reports how many |
| `MigrationRefs.SequentialIsSimultaneous` | scripts/migrate_local_media_to_cloudinary.py:80-118 | With distinct old URLs and no chain, the sequential rewriting is one simultaneous substitution |
| `MigrationRefs.SimultaneousIffNoChain` | scripts/migrate_local_media_to_cloudinary.py:80-118 | It is so on every cell if and only if no new URL is the old URL of a later asset |
| `MigrationRefs.ReferencesArePreserved` | scripts/migrate_local_media_to_cloudinary.py:80-118 | With distinct old and fresh new URLs a cell points at an asset afterwards exactly if it pointed at that asset before |
| `MigrationRefs.FailedAssetsKeepTheirCells` | scripts/migrate_local_media_to_cloudinary.py:83-95 | The cells of an asset whose upload failed do not change |
| `MigrationRefs.UploadsAre` | scripts/migrate_local_media_to_cloudinary.py:86-95 | The cloud store receives the URLs of the successful uploads, in their order, and no others |
| `MigrationRefs.CountsAreChanges` | scripts/migrate_local_media_to_cloudinary.py:115-116 | The reported count of a column is the number of its cells that changed |
| `SeedLedger.Connection.GetOrCreateUser` | scripts/canonical_seed_final_l5_01.py:90-114 | Refuses exactly the roles outside the registry, returns the id of an existing user untouched, else inserts one with the new id and the role that was asked for |
| `SeedLedger.Connection.Run` | scripts/canonical_seed_final_l5_01.py:651-840 | A run that dies at any statement leaves what was committed before it |
| `SeedLedger.PairedRunsStayBalanced` | scripts/canonical_seed_final_l5_01.py:749-775 | From a balanced state every committed state of a run is balanced, if insert and balance update stand together |
| `SeedLedger.RunsDeductOnce` | scripts/canonical_seed_final_l5_01.py:749-775 | Over any number of runs, each dying anywhere: at most one deduction, of 21 from 4000 for job L501-JOB-0004, and the balance is 4000 plus the ledger |
| `SeedLedger.ScriptIsPaired` | scripts/canonical_seed_final_l5_01.py:632-775 | The script's statements and commit points meet that condition |
| `SeedLedger.SeedDeductsOnce` | scripts/canonical_seed_final_l5_01.py:632-775 | So the script's own runs, from an empty database, never deduct twice and always balance |
| `SeedLedger.CompleteRunDeducts` | scripts/canonical_seed_final_l5_01.py:632-775 | A run that is not cut short leaves exactly one deduction of 21, the balance 3979, all six jobs and every user it asks for, whatever the runs before it did |
| `SeedLedger.SplitDeductionUnbalances` | scripts/canonical_seed_final_l5_01.py:758-769 | A commit between the two statements would commit an unbalanced state |
| `SeedLedger.RunsKeepUsers` | scripts/canonical_seed_final_l5_01.py:92-101 | No run changes a user that exists |
| `SeedLedger.RunsCreateUsersAsAsked` | scripts/canonical_seed_final_l5_01.py:102-114 | After any runs every user was there before, unchanged, or has the id and the canonical role that some statement for that address asked for |
| `Percentile.PercentileRaisesIff` | scripts/load_probe_admin.py:42-47 | Fails exactly for a fraction above one on a list that is not empty |
| `Percentile.PercentileAtTheEnds` | scripts/load_probe_admin.py:42-47 | An empty list gives 0.0, and a fraction that is not positive the least value |
| `Percentile.PercentileIsCorrect` | scripts/load_probe_admin.py:42-47 | The result is an element with at least f·n values not above it and fewer than f·n below it |
| `Percentile.PercentileIsUnique` | scripts/load_probe_admin.py:42-47 | It is the only value with that property |
| `Percentile.PercentileIsMonotone` | scripts/load_probe_admin.py:42-47 | A larger fraction has no smaller percentile |
| `Percentile.PercentileIgnoresOrder` | scripts/load_probe_admin.py:42-47 | Permuting the values changes nothing |
| `Percentile.Sort` | scripts/load_probe_admin.py:45-45 | Sorted and a permutation |
| `PiiScrub.ScrubShowsExactlyTheLowPart` | app/observability.py:62-78 | Two values scrub to the same result if and only if they agree outside PII keys |
| `PiiScrub.ScrubIsIdempotent` | app/observability.py:62-78 | Scrubbing twice is scrubbing once |
| `PiiScrub.ScrubKeepsOpenPlaces` | app/observability.py:69-77 | Along a path without PII keys the same places exist and hold the scrubbed original |
| `PiiScrub.ScrubHidesPiiPlaces` | app/observability.py:71-73 | At the first PII key of a path there is "[Filtered]" and nothing below it |
| `PiiScrub.PiiIff` | app/observability.py:64-72 | A key is PII if and only if, letter by letter and in whatever case, it spells one of the eleven words |
| `PiiScrub.PiiIgnoresCase` | app/observability.py:72-72 | Keys that differ in case only are PII together or not at all |
| `PiiScrub.TuplesAreNotScrubbed` | app/observability.py:75-77 | A secret inside a tuple goes through |
| `PiiScrub.ScrubbedShowsNoPiiIff` | app/observability.py:62-78 | A scrubbed event shows no PII, tuples included, if and only if its tuples showed none |
| `TenantGuard.CheckStateMachine` | e2e/tenant_governance_guard.py:47-63 | The findings are exactly the flaws of the table |
| `TenantGuard.CheckRule` | e2e/tenant_governance_guard.py:52-59 | The findings for one source are exactly its flaws |
| `TenantGuard.Lookup` | e2e/tenant_governance_guard.py:61-61 | The targets of a source, none for a missing one |
| `TenantGuard.NoFindingsIffWellFormed` | e2e/tenant_governance_guard.py:47-63 | No findings if and only if sources and targets are declared, no self-change, and no exit from a terminal status |
| `TenantGuard.RunsAreSafe` | e2e/tenant_governance_guard.py:47-63 | Then runs of any length stay in declared statuses, change at every step and never leave "terminated" |
| `TenantGuard.GuardIffRunsAreSafe` | e2e/tenant_governance_guard.py:47-63 | And only then: the guard is complete for runs as well |

## Left out

- Patcher.File.FixFile: reading and writing the file is not modelled; lines hold no line breaks, and findings have line numbers from 1 on.
- PatcherSignature.MultiLineStaysWellFormedIff: what annotations and defaults hold is not read, kinds of brackets are not told apart, brackets and commas inside string literals and comments count like any others, and names are ASCII words, keywords included.
- PatcherImported.NewImportImportedIff: an import in an indented block of the module, such as a `try`, does not count; string literals and comments are not read, so a docstring line that starts like an import, or a bracket in a comment, counts.
- Patcher.EditFor: `\s` and `\w` of the regular expressions are taken as the ASCII blanks and word characters.
- Sweep.Session.Sweep: constraint errors depend on the database and the table only, with RESTRICT and no cascades; the session starts without pending writes, as at both calls; of the stages of `run` the category sweep and the dangling references are not modelled.
- SweepClears.ClearsIffOrderWorks: the list names each table once, as the catalogue query that builds it does, and a delete raises only if it would remove a row.
- Sweep.Session.DryRun: a counting query that raises, and the aborted transaction it leaves, is not modelled.
- Percentile.PercentileIsCorrect: values and fraction are reals, so the rounding of the floating-point product is not modelled.
- PiiScrub.ScrubShowsExactlyTheLowPart: keys are strings, as in every event the reporter sends, and lower-casing is ASCII.
- SeedLedger.Connection.Run: runs follow one another; two at a time, the other tables and the `created` counters are not modelled.
- TenantGuard.CheckStateMachine: findings are a set of flaws; how often a repeated target is reported is not stated.
- BlocklistStore.Store.Dispatch: one request is one atomic step; concurrent updates of `hit_count`, and a block added between the read of the rows and the removal from Redis, are not modelled.
- BlocklistAdmin.InsertCoherence: the admin calls are functions on values, so their update in place is not captured; reason and threat level matter only for acceptance, the default expiry is an input, and the lengths of the columns and a tenant with the all-zero id are not modelled.
- Idempotency.Cache.Save: the time to live is the step that loses an entry; the headers of a response whose body was lost, its content length among them, are not modelled.
- Pipeline.ServeCases: a request is served without others in between; CORS is only the answer to a preflight; log lines, the quota key's date, the version value, the production-only transport header and the optional debug capture layer are not modelled.
- Reading the client address and decoding the token: address text, role and tenant are inputs of a request.
- Different spellings of one address, such as IPv6 texts with zeros written out: a bare text stands for one spelling.
- JSON text encoding and decoding: bodies are values, or bytes that do not decode.
- `scripts/audit_cross_app_connectivity.py`, the round-robin of the load probe and `_ensure_checklist`: their properties follow from one body each.
- Routers, start-up wiring other than the blocklist rebuild, notification, storage and payment clients, browser scripts, and the catalogue and seed data other than the base journey: wiring, I/O or constants.
