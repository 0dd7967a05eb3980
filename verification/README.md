# Failure simulator: a verified model

The simulator matches requests against ordered rules, decides per rule whether to answer with a simulated response or
to proxy, counts matches and simulations, and records a history. Projects, rules and counters live in memory or in
SQLite; a whole configuration can be exported and imported. This project models that behaviour in Dafny and proves
what holds over every input and every run.

| file | what it holds |
|---|---|
| `Models.dfy`, `Keyed.dfy` | entities; ordered lists addressed by id |
| `Headers.dfy`, `Validation.dfy` | the header validator and the rule validators, with their order-free conditions |
| `Matcher.dfy` | first-match selection |
| `Decision.dfy`, `DecisionRuns.dfy` | one decision, and the laws of runs of decisions |
| `DecideThreads.dfy` | `decide` under any interleaving of threads |
| `Store.dfy`, `Integrity.dfy` | every operation on the configuration as a value; invariants, export and import, ownership |
| `Outcomes.dfy` | what a client sees of each operation, reserved paths and owned requests over runs |
| `DataPlaneRuns.dfy` | the decision laws carried over to whole runs of requests mixed with management, and the limit across edits |
| `Sql.dfy`, `SqlStore.dfy` | tables, statements and constraints; the SQLite store simulates the in-memory one, storage failures included |
| `Transactions.dfy` | imports, exports and writes of many connections on one database file, statement by statement, with failures and crashes |
| `InMemory.dfy`, `Services.dfy`, `Sqlite.dfy` | the repositories, services, engine, executor and data plane as classes |
| `Pipeline.dfy` | overlapping requests and conservation of counters and history |
| `History.dfy` | the history repository, its SQL query, and cursor pagination under appends |
| `Seeding.dfy` | database initialization by many processes and threads, with failures and crashes |

Modelling choices. SHA-256 is an arbitrary function of (rule id, seed, match number) and the shared generator an
arbitrary stream with a cursor (`Decision.Source`). Probabilities are reals. UUIDs are numbers compared for equality; a
create is given an unused one (`Store.Admissible`). An SQLite table is a map from AUTOINCREMENT sequence to row, so
`ORDER BY sequence` is a computation over keys rather than the order of a list. A request's list, match and decide run
without an `await` and are one step; its history entry is a later step. Methods of the classes are proved against the
functions of `Store.dfy`, `Decision.dfy` and `History.dfy`, and the lemmas about runs are about those functions.

Three findings about the code, each with a witness and its exact condition. (1) An export fails for reachable
configurations (`Integrity.ExportCanFail`): creates are not capped but the exported document is, so an export succeeds
exactly up to 10,000 projects and 10,000 rules (`Integrity.ExportSucceedsWithinCap`). (2) An exported document can be
refused on import (`Integrity.ExportCanBeRefused`): it is accepted exactly when no legacy rule sits on a reserved path
(`Integrity.ExportImportRoundTrip`). (3) `simulated_count <= max_simulations` is not an invariant
(`DataPlaneRuns.LimitCanBeExceeded`), because edits keep the counters: it holds throughout a run exactly when no edit sets
a limit below what its rule has simulated by then (`DataPlaneRuns.LimitInvariantExactly`), and after an edit it holds
exactly when it held at the edit (`DataPlaneRuns.LimitAfterEdit`).

## Model

| member | source | states |
|---|---|---|
| Headers.ValidateHeaders | app/models/rule.py:49-82 | the loop with early exits and a running byte total accepts exactly the acceptable headers, returns them with the same values and with names that differ in letter case only and have no upper-case letter, and an error describes the first header that breaks the condition |
| Headers.AcceptableExactly | app/models/rule.py:18-82 | acceptable means, in the terms of the standards: at most 100 headers, names of visible ASCII without delimiters, none equal ignoring case to one of the nine server-managed names, latin-1 values without CR, LF and NUL, no two names equal ignoring case, and at most 16,384 characters when all names and values are written out |
| Headers.LowerIsLower | app/models/rule.py:57-58 | a lower-cased name has no upper-case letter and differs in letter case only |
| Headers.AcceptanceIgnoresOrder | app/models/rule.py:49-82 | acceptance is the same for every permutation of the headers |
| Headers.NormalizedIsFixedPoint | app/models/rule.py:49-82 | validating an accepted result again accepts it and returns it unchanged |
| Headers.LowerIgnoresCaseOnly | app/models/rule.py:57-61 | two names have the same lower-cased form exactly when they differ in letter case only |
| Validation.UpperIgnoresCaseOnly | app/models/rule.py:107-110 | two methods are the same after normalization exactly when they differ in letter case only |
| Validation.UpperIsUpper | app/models/rule.py:107-110 | an upper-cased method has no lower-case letter and differs in letter case only |
| Validation.ValidateRule | app/models/rule.py:84-187 | the validators accept exactly the valid payloads (ranges, headers, body serializable and within its byte limit, no body for bodyless statuses, reserved paths refused unless allowed) and return the normalized payload |
| Validation.ValidRuleExactly | app/models/rule.py:84-187 | a payload is valid exactly within its limits, each in numbers and literals |
| Validation.Utf8Exactly | app/models/rule.py:84-99 | the size of a body is one byte per character, one more from code 0x80, 0x800 and 0x10000 on each |
| Validation.ValidationIsIdempotent | app/models/rule.py:107-124 | a normalized payload is a fixed point of validation, so stored rules survive being loaded or imported again |
| Validation.ReservedPathsExactly | app/models/rule.py:39-43 | reserved are exactly the control prefix and the paths below it |
| Matcher.MatchExactly | app/core/matcher.py:6-18 | a match is an enabled rule of the list whose method is the upper-cased one and whose path is equal, before which there is no such rule; there is none exactly when no rule is like that |
| Matcher.OutOfService | app/core/matcher.py:6-18 | disabling or deleting a rule changes the match only for requests it owned, and those move to the next qualifying rule |
| DecisionRuns.SeededClosedForm | app/core/decision.py:39-140 | under any interleaving with other rules, a seeded or certain rule of fixed behaviour (toggles and renamings allowed) has counters and every reason given by a closed form in its match numbers and hash samples, from any starting counters |
| DecisionRuns.FreshClosedForm | app/core/decision.py:51-94 | from fresh counters the simulated count is the minimum of the limit and the number of eligible hits |
| DecisionRuns.OwnClosedForm | app/core/decision.py:115-140 | the same closed form for a run of one rule alone |
| DecisionRuns.NonInterference | app/core/decision.py:115-140 | decisions and counters of a deterministic rule equal those of its own calls run alone from any engine that agrees on its counters |
| DecisionRuns.DrawAccounting | app/core/decision.py:39-44 | the generator advances exactly once per unseeded decision that passes skip and limit with probability below one, and that decision compares exactly its own draw |
| DecisionRuns.PhaseStructure | docs/rule-behaviors.md:27-63 | every trace of fixed behaviour, of any rule, seeded or not, from any counters and interleaved with anything, is skips, then attempts, then exhausted; and the counters are in the phase the trace has reached |
| DecisionRuns.ExhaustionAbsorbs | app/core/decision.py:51-63 | for any rule of fixed behaviour, once exhausted always exhausted, and a skip is preceded by skips only |
| DecisionRuns.CertainTrace | docs/rule-behaviors.md:55-63 | with probability one the trace is exactly skip_matches skips, max_simulations simulations, then exhausted for ever |
| DecisionRuns.SimulationsMonotone | app/core/decision.py:51-94 | over the same number of matches, higher probability, a later or no limit, or a shorter skip window never lowers the simulated count |
| DecisionRuns.SingleDecisionsMayFlip | app/core/decision.py:51-63 | a concrete pair of rules for which one decision goes the other way, so only the count is monotone |
| DecisionRuns.CountersAcrossEdits | app/core/decision.py:115-140 | across versions of a rule: matched grows by the number of calls, simulated never decreases, simulated <= matched, last_triggered_at is set exactly when something was simulated, and the update-aware limit holds |
| DecisionRuns.SimulatedCountsDecisions | app/core/decision.py:126-134 | simulated_count grows by exactly the number of decisions that simulate the rule, across edits and other rules |
| DecisionRuns.SimulationsWithinLimit | app/core/decision.py:58-63 | no more decisions simulate than the limit leaves, for any rule whose versions all carry one, seeded or not |
| DecisionRuns.LastTriggered | app/core/decision.py:126-134 | last_triggered_at is the time of the last simulated decision of the rule; skips, misses, exhaustion and other rules leave it alone |
| DecisionRuns.Replay | docs/rule-behaviors.md:67-71 | from equal counters the same versions give the same reasons and counters, whatever the clock and the generator |
| DecisionRuns.ResetReplays | docs/rule-behaviors.md:67-71 | after a reset the reasons of a deterministic rule repeat from the start, with other rules interleaved differently in both runs |
| DecisionRuns.RestartsInvisible | docs/rule-behaviors.md:102-105 | for each deterministic rule, whatever other rules do: cutting a run into sessions of new engines over the persisted counters, each with its own generator, changes neither its decisions nor its counters |
| DecisionRuns.RunSplits | app/core/decision.py:97-140 | a run is the composition of its parts |
| DecideThreads.Linearizable | app/core/decision.py:104-140 | for any interleaving of enter, acquire, get, evaluate, save and release: mutual exclusion; whenever the lock is free the counters and the generator are those of the sequential run in lock-acquisition order; every decision handed back is the sequential one of its turn and went to the thread that took the turn; a turn that was over when a thread entered precedes that thread's turn |
| DecideThreads.NoIncrementLost | app/core/decision.py:104-140 | in every reachable state, lock held or free: the stored counters count the saved turns of each rule and the simulations among them, and while all its versions carry a limit no more turns are answered with a simulation than the limit leaves |
| DecideThreads.CallCompletes | app/core/decision.py:115-140 | from every reachable state with the lock free, a call takes the next turn, is answered with the decision on the counters it found, and leaves the lock free |
| DecideThreads.OwnerFinishes | app/core/decision.py:115-140 | from every reachable state the owner of the lock can finish, whatever the other threads are at |
| DecideThreads.TurnsInRealTime | app/core/decision.py:104-140 | turns keep their calls, callers and answers for ever, and every later turn comes after all turns answered before |
| DecideThreads.AlwaysInv | app/core/decision.py:115-140 | the interleaving invariant holds after every run of micro-steps |
| Integrity.GlobalIntegrity | app/services/rules.py:33-83 | over every run of every operation: ids unique, project references valid, counter keys name rules, counters sound, stored rules fixed points of validation with legacy paths allowed |
| Integrity.StepKeepsIntact | app/services/projects.py:31-37 | each operation preserves that invariant |
| Integrity.GuardIsExact | app/services/projects.py:31-37 | deleting an existing project leaves every project reference valid if and only if no rule belongs to it, which is what the in-use guard tests |
| Integrity.SeedsIntact | app/repository.py:167-179 | the seed project and rule satisfy the invariant |
| Integrity.ExportSucceedsWithinCap | app/models/configuration.py:21-47 | an export of an intact configuration succeeds if and only if it has at most 10,000 projects and 10,000 rules, and is then the configuration in order |
| Integrity.ExportCanFail | app/models/configuration.py:11-22 | a reachable configuration whose export fails |
| Integrity.ExportImportRoundTrip | app/configuration_repository.py:32-44 | importing an export is accepted if and only if no rule is on a reserved path, leaves projects and rules unchanged, clears all counters and reports how many rules had any |
| Integrity.ExportCanBeRefused | app/models/rule.py:114-124 | a configuration with one legacy rule on a reserved path: intact, exported successfully, and its own export is refused |
| Integrity.ImportExportRoundTrip | app/services/configuration.py:12-26 | after an accepted import an export returns the normalized document; a dry run changes nothing and reports the sizes |
| Integrity.FirstMatchOwns | app/core/executor.py:42-60 | while an enabled rule precedes another with the same method and path, the later rule's counters never change |
| Integrity.ShadowedNeverServes | app/core/matcher.py:6-18 | a shadowed rule is never the match |
| Outcomes.ReservedPathsNeverStored | app/models/rule.py:114-124 | over every run of every operation, a configuration without rules on reserved paths never gets one |
| Outcomes.ReservedRefused | app/models/rule.py:114-124 | creating, updating or creating from a template on a reserved path is refused and changes nothing |
| Outcomes.MatchedCountsOwned | app/core/executor.py:42-60 | over runs that do not clear them, a rule's counters count exactly the requests for its method and path that arrived while it was enabled and first, and are untouched by all others |
| Outcomes.ServeOutcome | app/core/executor.py:37-60 | a request moves the counters of the first enabled rule with its method and path, by one match and at most one simulation as the policies justify, and nothing else; without such a rule nothing happens |
| Outcomes.ImportOutcome | app/services/configuration.py:12-26 | every import: refused exactly for an unacceptable document; otherwise the reply has the sizes of the document and the number of rules that had counters, and the document is in place, in order |
| Outcomes.AcceptedDocumentExactly | app/models/configuration.py:14-47 | which documents an import accepts, in numbers, ids and references |
| Outcomes.DeleteProjectOutcome | app/services/projects.py:31-37 | a project is deleted exactly if it exists and no rule names it; only that project goes and the order stays |
| Outcomes.UpdateProjectOutcome | app/services/projects.py:27-29 | refused for its limits, then for a missing project; otherwise changed in place |
| Outcomes.CreateRuleOutcome | app/services/rules.py:33-35 | refused for its payload, then for an unknown project; otherwise last in the list and nothing else changes |
| Outcomes.CreateFromTemplateOutcome | app/services/rules.py:37-52 | refused for the form, then a missing template, then an unknown project; otherwise each field of the new rule comes from where it should |
| Outcomes.UpdateRuleOutcome | app/services/rules.py:54-56 | refused for its payload, then an unknown project, then a missing rule; otherwise changed in place with its counters kept |
| Outcomes.SetEnabledOutcome | app/services/rules.py:58-59 | the flag of the one rule takes the value given and nothing else in the configuration changes |
| Outcomes.DeleteRuleOutcome | app/services/rules.py:61-65 | exactly the rule and its counters go |
| Outcomes.ResetOutcome | app/services/rules.py:73-76 | exactly the counters of an existing rule are zeroed |
| Outcomes.SeedsServe | app/repository.py:167-179 | a new store answers every GET request for /api/users with a simulated 503, and no other request |
| DataPlaneRuns.RunIsEngineRun | app/core/executor.py:42-60 | between clearings, the counters, generator and decisions of a run of requests and management are exactly those of its engine calls in order |
| DataPlaneRuns.EndToEndClosedForm | app/core/executor.py:42-60 | over whole runs of requests and management, for a stored deterministic rule that is neither edited nor cleared (others may be): matched counts its requests, simulated and the reason of each of its requests follow the closed form, and from no counters simulated is the minimum of limit and eligible hits |
| DataPlaneRuns.LimitAfterEdit | app/services/rules.py:54-56 | after an accepted edit to a limit and then anything that neither edits nor clears the rule, the simulated count is within the limit if and only if it was at the edit, and never passes the larger of the two |
| DataPlaneRuns.LimitInvariantExactly | app/core/decision.py:58-63 | from a configuration within its limits, simulated_count <= max_simulations holds for every rule at every point of a run if and only if no accepted edit sets a limit below what its rule has simulated by then |
| DataPlaneRuns.LimitStepExactly | app/services/rules.py:54-83 | the same for one operation of any kind |
| DataPlaneRuns.LimitCanBeExceeded | app/repository.py:47-54 | a run from the empty store that breaks the limit: create without one, serve twice, limit to one |
| SqlStore.SqlRefinesMemory | app/repository.py:86-164 | over every run of services and requests, with a storage failure allowed in any request at a read, a write or a second transaction, the SQLite store gives the same replies, no constraint error, and the same ordered projects, ordered rules, counters and generator position as the in-memory store, before and after every failure |
| SqlStore.SqlRefinesRun | app/project_repository.py:71-120 | without failures that run is the run of the in-memory services |
| SqlStore.FailureChangesNothing | app/database.py:81-92 | a failed request changes neither projects nor rules nor counters, except that a rule deletion failing after its first transaction is complete |
| SqlStore.StepSimulates | app/database.py:19-39 | the same for one operation from any aligned tables |
| SqlStore.UpdatesRule | app/repository.py:118-141 | both UPDATE statements are the list's index assignment and keep the project_id column equal to the payload |
| SqlStore.RemoveRuleSimulates | app/services/rules.py:61-65 | cascade delete equals explicit deletion of the counters |
| SqlStore.RemoveProjectSimulates | app/services/projects.py:31-37 | counting the project_id column gives the same verdict as counting payloads, and RESTRICT never fires behind the guard |
| SqlStore.CountListed | app/repository.py:151-157 | the SQL count equals the in-memory count |
| SqlStore.DispatchSimulates | app/runtime_repository.py:46-88 | the get and upsert of a decision satisfy the foreign key and match the dictionary |
| SqlStore.ReplaceLegal | app/configuration_repository.py:76-104 | for every valid document each statement of an import meets every constraint when it runs, and the result is exactly the document without counters |
| SqlStore.ProjectsCannotGoFirst | app/configuration_repository.py:84-85 | deleting projects before rules is refused exactly when some rule belongs to a project |
| Sql.ListedUpdate | app/repository.py:118-129 | UPDATE WHERE id replaces the one list element with the id |
| Sql.ListedDelete | app/repository.py:143-149 | DELETE WHERE id removes the one list element with the id |
| Sql.ListedInsert | app/database.py:25-30 | an inserted row is last in sequence order |
| Sql.ListedFind | app/repository.py:97-103 | SELECT WHERE id returns what a scan of the list finds |
| Sqlite.SQLiteConfigurationRepository.Replace | app/configuration_repository.py:76-104 | statements run on the connection's working copy; a storage failure at any row, statement or the commit ends in a rollback and the database is exactly as it was, otherwise it holds exactly the document and the count of cleared states is returned |
| Transactions.ImportsAndExportsAtomic | app/configuration_repository.py:51-104 | for every interleaving of any number of connections importing statement by statement, exporting in two reads and writing, with failures and crashes anywhere: no constraint ever refuses a statement, every committed import left exactly its document without counters and reported the counters it found, and every export is one committed version, the last one at that moment |
| Transactions.OldOrWholeDocument | app/database.py:81-92 | while a document is being imported, in any number of attempts with failures and crashes, every other connection sees the old configuration or the whole document |
| Transactions.ImportGoesThrough | app/configuration_repository.py:75-104 | from every reachable state in which nobody reads or writes, an import of any valid document that meets no failure publishes exactly the document |
| Transactions.ExportGoesThrough | app/configuration_repository.py:51-73 | an export that meets no failure returns the configuration committed at that time, whatever others are writing |
| Transactions.NothingWithoutCommit | app/database.py:85-92 | committed versions and returned exports are never lost, and over any run without a commit the file stays as it was, whatever statements, rollbacks and crashes happen |
| Transactions.StatementLegal | app/configuration_repository.py:84-103 | each statement of an import, at any row, meets every constraint and brings the working copy one row closer to the document |
| Transactions.AlwaysInv | app/database.py:81-92 | the transaction invariant holds over every sequence of steps |
| Sqlite.SQLiteRuleRepository.Create | app/repository.py:105-116 | appends the rule, or fails on a used id or unknown project and changes nothing |
| Sqlite.SQLiteRuleRepository.Get | app/repository.py:97-103 | finds the element of the ordered list |
| Sqlite.SQLiteRuleRepository.Update | app/repository.py:118-129 | replaces the element in place, reports a missing rule, and refuses an unknown project |
| Sqlite.SQLiteRuleRepository.SetEnabled | app/repository.py:131-141 | the read and payload-only write equal the in-memory toggle |
| Sqlite.SQLiteRuleRepository.Delete | app/repository.py:143-149 | removes the element and its counters and nothing else |
| Sqlite.SQLiteProjectRepository.Create | app/project_repository.py:91-98 | appends the project or fails on a used id |
| Sqlite.SQLiteProjectRepository.Update | app/project_repository.py:100-107 | replaces the element in place or reports it missing |
| Sqlite.SQLiteProjectRepository.Delete | app/project_repository.py:109-115 | refused exactly when a rule names the project; otherwise removes it |
| Sqlite.SQLiteRuleRuntimeRepository.Get | app/runtime_repository.py:46-63 | the stored counters or the default |
| Sqlite.SQLiteRuleRuntimeRepository.Save | app/runtime_repository.py:65-88 | an upsert for existing rules; unlike the dictionary it refuses counters of a rule that does not exist |
| Sqlite.SQLiteRuleRuntimeRepository.Reset | app/runtime_repository.py:90-96 | removes exactly the rule's counters |
| InMemory.InMemoryRuleRepository.FindIndex | app/repository.py:79-83 | the first index with the id, or none exactly when there is none |
| InMemory.InMemoryRuleRepository.Create | app/repository.py:42-45 | appends the rule |
| InMemory.InMemoryRuleRepository.Update | app/repository.py:47-54 | replaces the first element with the id |
| InMemory.InMemoryRuleRepository.SetEnabled | app/repository.py:56-63 | changes only the enabled flag of the first element with the id |
| InMemory.InMemoryRuleRepository.Delete | app/repository.py:65-71 | removes the first element with the id |
| InMemory.InMemoryRuleRepository.CountForProject | app/repository.py:73-74 | the number of rules of the project |
| InMemory.InMemoryProjectRepository.Update | app/project_repository.py:43-49 | replaces the first element with the id |
| InMemory.InMemoryProjectRepository.Delete | app/project_repository.py:51-56 | removes the first element with the id |
| InMemory.InMemoryRuleRuntimeRepository.Save | app/runtime_repository.py:25-27 | files the state under its rule |
| InMemory.InMemoryRuleRuntimeRepository.Clear | app/runtime_repository.py:36-39 | empties the dictionary and returns its size |
| Services.RuleService.Create | app/services/rules.py:33-35 | refuses an unknown project, otherwise appends |
| Services.RuleService.CreateFromTemplate | app/services/rules.py:37-52 | missing template first, then unknown project; the form's name wins over the template's |
| Services.RuleService.Update | app/services/rules.py:54-56 | project check before rule lookup; counters untouched |
| Services.RuleService.SetEnabled | app/services/rules.py:58-59 | toggles and keeps counters |
| Services.RuleService.Delete | app/services/rules.py:61-65 | deletes rule and counters together or reports it missing |
| Services.RuleService.ListStates | app/services/rules.py:67-71 | one state per rule in rule order, defaults included |
| Services.RuleService.ResetState | app/services/rules.py:73-76 | clears counters of an existing rule only |
| Services.ProjectService.Create | app/services/projects.py:24-25 | appends the project |
| Services.ProjectService.Update | app/services/projects.py:27-29 | replaces the project or reports it missing |
| Services.ProjectService.Delete | app/services/projects.py:31-37 | not found, in use, or deleted, in that order |
| Services.InMemoryConfigurationRepository.Replace | app/configuration_repository.py:40-44 | the document replaces projects and rules, all counters go, their number is returned |
| Services.InMemoryConfigurationRepository.ImportDocument | app/services/configuration.py:12-26 | a dry run changes nothing and reports zero cleared states |
| Services.RuleDecisionEngine.Evaluate | app/core/decision.py:39-94 | skipped exactly inside the skip window, exhausted exactly past it with the limit reached, simulated exactly if then certain or sampled below the probability, a miss otherwise; the generator advances by one exactly for an eligible uncertain unseeded rule |
| Services.RuleDecisionEngine.Decide | app/core/decision.py:115-140 | the saved counters, generator position and decision are those of the decision function the run laws are about |
| Services.RequestExecutor.Match | app/core/executor.py:42-46 | the scan returns the first match |
| Services.RequestExecutor.Execute | app/core/executor.py:37-81 | counters move as one dispatch; simulated status of the matched rule, or the upstream status, or 502 on a request error, with reason and rule id of that dispatch |
| Services.DataPlane.Record | app/services/history.py:33-58 | stores one entry, or suppresses a failing store and changes nothing |
| Services.DataPlane.SimulateOrProxy | app/main.py:234-255 | one dispatch; the status answered and recorded is the matched rule's if simulated, else the upstream's, or 502 on a request error; then at most one history entry describing the dispatch |
| Pipeline.Conservation | app/main.py:234-255 | in every reachable state each rule's matched and simulated counts equal its recorded, in-flight and unrecorded requests begun since its counters were last cleared, and every begun request is in exactly one of these places |
| Pipeline.HistoryExplainsCounters | app/services/history.py:53-58 | with nothing in flight, lost or cleared, the stored entries alone give both counters |
| Pipeline.EveryRequestEndsOnce | app/main.py:241-254 | over every run, the history grows by exactly the finished requests and keeps what it has, the unrecorded are exactly the aborted or unrecordable ones, and all others are in flight |
| Pipeline.EntryTellsTheDecision | app/main.py:234-255 | the entry a request leaves when it finishes has its method, path, status and duration and the rule, reason and outcome decided when it began, whatever happened in between |
| Pipeline.AlwaysInv | app/core/executor.py:42-81 | the pipeline invariant holds over every sequence of begins, finishes, losses and management operations |
| Pipeline.BeginConserves | app/core/executor.py:42-60 | a beginning request keeps the balance of every rule |
| Pipeline.TotalLeave | app/main.py:241-254 | finishing or losing a request moves it between places without changing any tally |
| History.InMemoryRequestHistoryRepository.List | app/history_repository.py:38-50 | the backward scan that stops at the limit returns the first entries below the cursor, newest first |
| History.InMemoryRequestHistoryRepository.Create | app/history_repository.py:52-57 | appends an entry with the next, larger id |
| History.InMemoryRequestHistoryRepository.constructor | app/history_repository.py:33-36 | initial entries are kept, sorted, and ids continue above them |
| History.SortSpec | app/history_repository.py:34 | the initial order is ascending by id and a permutation |
| History.SortStable | app/history_repository.py:34 | entries with equal ids keep their order |
| History.PagesAgree | app/history_repository.py:64-82 | the SQL query and the in-memory scan return the same page |
| History.InsertAgrees | app/history_repository.py:84-109 | an INSERT is the in-memory append with the same id |
| History.ReasonsMatchOutcomes | app/history_repository.py:111-131 | rows without a stored reason read back with one that agrees with their outcome |
| History.RowsReadBack | app/history_repository.py:111-131 | a row reads back field by field, with the reason of its outcome if it has none stored |
| History.StoredOrder | app/database.py:41-51 | stored rows read back in strictly increasing id order |
| History.CrawlFrom | app/history_repository.py:64-77 | following the last id seen, pages are consecutive pieces of what was below the first cursor, whatever is appended in between |
| History.StablePagination | app/history_repository.py:64-82 | from no cursor, enough pages give exactly the entries present at the first page, each once, in strictly decreasing id order |
| Seeding.SeededExactlyOnce | app/database.py:94-126 | in every reachable state either nothing is committed and no thread is ready, or exactly one commit installed seeds |
| Seeding.SeedingIsAtomic | app/database.py:112-122 | the commit that makes the marker visible installs one process's full seed set into empty tables; before it nothing is visible |
| Seeding.DeletedSeedsStayDeleted | app/database.py:112-126 | after seeding, later starts, retries and crashes never change the stored configuration |
| Seeding.InitializationGoesThrough | app/database.py:94-126 | from every reachable state in which nothing stands in its way, a start that meets no failure leaves its thread ready and the locks free; an unseeded file then holds exactly the seeds and the marker, a seeded one is unchanged |
| Seeding.RetryGoesThrough | app/database.py:85-126 | a failure anywhere in the initialization leaves the file alone, and the next start that meets none goes through |
| Seeding.InitializedOncePerProcess | app/database.py:94-99 | once a process is initialized, none of its threads ever enters schema creation or the seeding transaction again |
| Seeding.CrashIsFinal | app/database.py:94-126 | no thread of a crashed process is ever inside again |
| Seeding.AlwaysInv | app/database.py:94-126 | the initialization invariant holds over every interleaving of threads, processes, failures and crashes |

## Left out

- Protocol dispatch: the services are classes over the in-memory repositories; over SQLite the same service logic is a function (`SqlStore.SqlStep`), because one class over either backend would need traits.
- SQLite reads through `list` are taken as one query over the tables; lock time-outs count as failures, and SQL parsing is not modelled.
- `Transactions.dfy` takes the write transaction of another service as one step, since each has a single statement, and opens a connection when its first step is taken.
- A storage failure inside a request over the SQLite store is placed at a read, at the write or its commit, or in the second transaction of a rule deletion; which of several reads failed makes no difference and is not recorded.
- Routers, dependency wiring, the HTTPX client lifecycle, the web UI, the demo script and the Docker files.
- What the upstream does: a proxied request ends with a status, a request error or an abort; URL joining and hop-by-hop header filters are not modelled.
- SHA-256, the generator's distribution, UUID generation and clocks; in particular nothing is said about how often samples hit.
- Validation.ValidateRule: takes the text that serializing a body yields, or that it cannot be serialized, as given, because the JSON encoder is a library; loading is its inverse on normalized values.
- Validation.UpperIgnoresCaseOnly: upper-casing of methods is the ASCII one, because Unicode case tables are outside the model; header names are ASCII by their token rule.
- Column migration beyond reading rows without a decision reason, the `:memory:` database, and counters shared by several worker processes, which the documentation places outside the guarantee.
- Histories seeded with two entries of one id: the scan is modelled for them, pagination is proved for distinct ids.
- Template catalogue contents; a template is any value with a name and an acceptable response.
