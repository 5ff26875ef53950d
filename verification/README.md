# Deployment state: model and proofs

The server keeps three kinds of state: update metrics in a flat Redis keyspace, numbered package
histories per deployment, and the tables of apps, collaborators and deployments. `Service` reads and
writes all three. This project models that state and the code that changes it, and proves what every
run of requests keeps.

`dafny verify dfyconfig.toml` checks everything.

## How the model is built

- `Redis` is the keyspace and its commands; a transaction runs every command, and a command that
  fails does not undo the others. `MetricsKeys` holds the key builders, `MetricsStore` the adapter.
- `Packages` is one deployment's history as a value: next ordinal, insert under the two unique
  indexes, choice of a rollback target. `UpdateCheck` is the search that answers clients.
- `Tables` gives each repository statement as a function on the relational state; `Requests` composes
  them as the service does. Runs of requests are sequences of such steps, each one atomic.
- `Answers` states what every request answers and leaves behind in terms of the tables alone, so that
  the functions the other results are about are themselves pinned to the source's behaviour.
- The classes `MetricsStore.Metrics`, `Repository.Store` and `Service.Service` have the source's
  methods with their loops and updates, each proved to do what those functions say. `Listing` has the
  row-grouping loops.
- `ReportProtocol` and `OptimisticCommit` split reports, clears and commits into the separate steps
  the source takes, and quantify over all interleavings.
- Times, random keys and generated row ids are inputs. Where a query has no ORDER BY, or a match may
  pick any of several rows, the model leaves the choice open.

## Main results

1. Replay: after any log of downloads, reports and clears the store answers what replaying the
   deployment's own events since its last clear gives (`ReportLog.ReplayRefinement`). For two
   deployments each is answered correctly for all logs if and only if their keys are separated
   (`ReportLog.ReplayNeedsSeparation`), a condition on the two key strings that is met by every pair
   of colon-free keys.
2. Interleaving: with reports and clears split into steps, a client is in at most one active set of a
   non-empty label, the one its pointer names (`ReportProtocol.OneActiveSetPerClient`). At every moment of an
   interleaving the state is that of the same requests one at a time, and every counted or active label
   is listed, if and only if each clear deletes all labels listed by then
   (`ReportProtocol.SerialThroughoutIff`, `ReportProtocol.IndexedThroughoutIff`).
3. Conservation: counter totals over labels account for every report since the last clear if and only
   if no label has more events of a kind than a counter holds (`Conservation.CountersConserved`), and the
   active sets for every named client (`Conservation.ActiveConserved`).
4. Commits: no interleaving yields duplicate ordinals or labels, whatever labels the history had
   (`OptimisticCommit.NoDuplicates`), and ordinals are 1..n at every moment if and only if no insert comes
   in past the next ordinal (`OptimisticCommit.DenseThroughoutIff`), which only a clear between a commit's
   read and its insert can cause (`OptimisticCommit.DenseAlways`).
5. Rollbacks: provenance, no new payload, alternation (`Rollbacks.NoNewPayload`,
   `Rollbacks.AlternatingRollback`). Over every run of requests of all kinds, from any histories, no
   deployment delivers anything new and provenance is kept (`Lineage.HistoriesOverRuns`); over runs of
   rollback requests the newest package alternates (`Lineage.AlternatingRequests`).
6. Owners: at most one always, exactly one over a run if and only if no owner adds their own email, and
   never again one once lost (`Ownership.OwnersOverRuns`, `Ownership.OwnerlessForever`).
7. Frame: an account without a collaborator row changes nothing of an app (`Frame.StrangersRun`).
8. Update check: what the newest package decides for every client, growth, adoption, rollback redirection
   and the exact rollout count (`UpdateCheck.NewestDecides`, `UpdateCheck.RollbackRedirects`,
   `UpdateCheck.RolloutExact`).

## Where the code falls short of what one might expect

Each of these is modelled as the code has it, with the exact condition proved and, where the state
is reached by a short run, that run.

- A commit whose deployment is cleared between its read and its insert leaves a history that does not
  start at v1 (`OptimisticCommit.DenseThroughoutIff`, and the run `OptimisticCommit.ClearDuringCommit`).
- A client-supplied deployment key with a colon can collide with another deployment's Redis keys, and
  then metrics are miscounted (`ReportLog.LabelShadowMiscounts`, `ReportLog.ClientShadowMiscounts`).
- Leaving an empty label goes unnoticed, so its active set keeps everyone who ever reported it
  (`ReportLog.ActiveIsLatestIff`, `Conservation.ActiveConserved`, and the run `ReportLog.EmptyLabelKeepsClient`).
- A failed deploy moves the active client like a successful one. The status makes no difference outside
  two counters (`MetricsStore.StatusOnlyCounts`); whether a report moves its client depends on client, label and
  pointer alone (`MetricsStore.ActiveSetsKeptIff`, and the run `ReportLog.FailedDeployMovesClient`).
- A counter at the 64-bit maximum makes the request fail, but the rest of its transaction is applied
  (`MetricsStore.ReportOkIff`).
- A clear that deletes by an outdated label list leaves counters that no later clear finds, and that
  a later report of the label counts on from. Exactly the interleavings with such a clear lose labels
  (`ReportProtocol.IndexedThroughoutIff`, and the run `ReportProtocol.DownloadDuringClear`).
- An owner who adds their own email leaves the app without an owner for good
  (`Ownership.OwnerKeptIff`, `Ownership.OwnerlessForever`, and the run `Ownership.OwnEmailRun`).
- A transfer does not check names, so an account can end up owning two apps of one name, and
  resolution then depends on row order (`Resolution.TransferNamesUniqueIff`, `Resolution.OneAnswerEverywhereIff`,
  and the run `Resolution.TransferRun`). No other request does this (`Resolution.NamesKept`).
- An app whose name has a colon does not resolve by that name (`Resolution.CreatedResolvesIff`,
  `Resolution.RenamedResolvesIff`, and the run `Resolution.ColonRun`); creating or renaming one can return
  an error although the write has happened (`Answers.FailedDefaultsLeaveApp`, `Service.Service.CreateApp`, `Service.Service.UpdateApp`).
- `docs/architecture.md` line 70 names a `package_history` table. The schema has none; the history is the
  `packages` table.

## Model

| member | source | states |
|---|---|---|
| Decimal.ParseCounterOfRender | internal/adapters/metrics/redis/metrics.go:190-199 | Reading back a rendered counter gives the counter exactly while it fits a signed 64-bit word, and zero beyond |
| Decimal.SignedCounter | internal/adapters/metrics/redis/metrics.go:194-197 | A signed number is read down to the smallest and up to the largest 64-bit word, and as zero beyond |
| Decimal.UnreadableCounter | internal/adapters/metrics/redis/metrics.go:191-197 | Text with anything but digits after an optional sign reads as zero |
| Decimal.VersionLabelReads | internal/adapters/persistence/postgres/repository.go:734 | A label is "v" followed by the ordinal's decimal form |
| Decimal.VersionLabelInjective | internal/adapters/persistence/postgres/repository.go:733-734 | Two ordinals have the same label only when they are equal |
| MetricsKeys.KeysDisjointIff | internal/adapters/metrics/redis/metrics.go:174-188 | Two deployments share no Redis key, for any labels and client ids, if and only if neither key continues the other with a label or client segment |
| MetricsKeys.ColonFreeSeparated | internal/application/service.go:452-461 | Distinct colon-free keys, such as generated ones, are always separated |
| MetricsKeys.BuildersInjective | internal/adapters/metrics/redis/metrics.go:174-188 | Within a deployment the four builders are injective and pairwise disjoint for arbitrary labels and client ids |
| MetricsKeys.ShadowsShareKey | internal/adapters/metrics/redis/metrics.go:174-188 | If one deployment key continues another with a label or client segment, some Redis key belongs to both |
| Redis.ExecFrame | internal/adapters/metrics/redis/metrics.go:112-132 | A transaction changes only keys its commands name |
| Redis.ExecAt | internal/adapters/metrics/redis/metrics.go:112-132 | A key named by one command of a transaction ends as that command alone would leave it |
| Redis.ExecOkIff | internal/adapters/metrics/redis/metrics.go:131-132 | A transaction over distinct keys is answered without error exactly when each command would be |
| MetricsStore.DownloadEffect | internal/adapters/metrics/redis/metrics.go:99-105 | A download raises one counter (unless saturated), lists the label, and changes no other counter, active set or pointer |
| MetricsStore.ReportEffect | internal/adapters/metrics/redis/metrics.go:107-133 | What a report's transaction does to labels, counters, active sets and pointers, for any pointer value it was built with |
| MetricsStore.StatusOnlyCounts | internal/adapters/metrics/redis/metrics.go:114-121 | Reports that differ in status only leave all keys the same but the label's counters, and there all fields but the two they raise |
| MetricsStore.ActiveSetsKeptIff | internal/adapters/metrics/redis/metrics.go:122-130 | A report leaves all active sets alone exactly when it names no client, or one that is in the label's set and has no other to leave |
| MetricsStore.ClearEffect | internal/adapters/metrics/redis/metrics.go:159-172 | A clear removes the label list and the listed labels' counters and active sets, and no client pointer |
| MetricsStore.OtherDeploymentsUntouched | internal/adapters/metrics/redis/metrics.go:99-172 | Every operation leaves all keys of a separated deployment as they were |
| MetricsStore.ReportOkIff | internal/adapters/metrics/redis/metrics.go:107-133 | A report errs exactly when its counter is at the 64-bit maximum |
| MetricsStore.DownloadOkIff | internal/adapters/metrics/redis/metrics.go:99-105 | A download errs exactly when its counter is at the 64-bit maximum |
| MetricsStore.CountersReadBack | internal/adapters/metrics/redis/metrics.go:150-153 | Counters parsed from the hash read as text are the numbers stored |
| MetricsStore.Metrics.constructor | internal/adapters/metrics/redis/metrics.go:71-89 | The store starts from an empty keyspace |
| MetricsStore.Metrics.IncrementDownload | internal/adapters/metrics/redis/metrics.go:99-105 | The queued commands have the effect of the download transaction, with its exact error condition |
| MetricsStore.Metrics.ReportDeploy | internal/adapters/metrics/redis/metrics.go:107-133 | The branches on label, status and client queue exactly the report transaction for the pointer read, with its exact error condition |
| MetricsStore.Metrics.GetMetrics | internal/adapters/metrics/redis/metrics.go:135-157 | The loop returns, for each listed label and no other, the active count and the three counters, and fails exactly when one of those keys holds another kind of value |
| MetricsStore.Metrics.Clear | internal/adapters/metrics/redis/metrics.go:159-172 | Deletes exactly the keys of the listed labels, or nothing exactly if the list's key holds another kind of value |
| ReportLog.ReplayRefinement | internal/adapters/metrics/redis/metrics.go:99-172 | After every log the answer for a deployment is the replay of its events since its last clear, stale pointers notwithstanding |
| ReportLog.ReportCounted | internal/adapters/metrics/redis/metrics.go:107-121 | After any log one report is filed under its label, or its app version if it has none; there failed goes up if the status is DeploymentFailed and installed otherwise, and no other count changes |
| ReportLog.RunRefines | internal/adapters/metrics/redis/metrics.go:99-172 | In every reachable state labels, counters, active sets and pointers agree with the replay |
| ReportLog.RefinesReport | internal/adapters/metrics/redis/metrics.go:107-133 | One report keeps the agreement, extending the replay by that report |
| ReportLog.RefinesClear | internal/adapters/metrics/redis/metrics.go:159-172 | One clear keeps the agreement and starts the replay afresh |
| ReportLog.LabelIndexComplete | internal/adapters/metrics/redis/metrics.go:100-102 | In every reachable state each existing counter or active-set key has its label listed |
| ReportLog.ClearLeavesOnlyPointers | internal/adapters/metrics/redis/metrics.go:159-171 | A clear after any log leaves only client pointers of the deployment |
| ReportLog.ActiveIsLatestIff | internal/adapters/metrics/redis/metrics.go:122-130 | Active sets are "whose latest report carries the label" exactly if nobody has moved off an empty label |
| ReportLog.EmptyLabelKeepsClient | internal/adapters/metrics/redis/metrics.go:125-130 | Two reports by one client, first of an empty label, after which the client is active on both |
| ReportLog.FailedDeployMovesClient | internal/adapters/metrics/redis/metrics.go:118-130 | A success and then a failure on another label, after which the client is active on the failed label only |
| ReportLog.ReplayNeedsSeparation | internal/adapters/metrics/redis/metrics.go:174-188 | A deployment is answered correctly after every log about it and another if and only if their keys are separated |
| ReportLog.LabelShadowMiscounts | internal/adapters/metrics/redis/metrics.go:178-180 | Concrete logs of two downloads on colliding keys, one miscounted for each of the two deployments |
| ReportLog.PointerOverwritten | internal/adapters/metrics/redis/metrics.go:186-188 | A concrete log in which another deployment's report overwrites a client's pointer and the client stays in two sets |
| ReportLog.ClientShadowMiscounts | internal/adapters/metrics/redis/metrics.go:186-188 | A concrete log in which a client pointer in the place of a label list loses a label |
| Conservation.CountersConserved | internal/adapters/metrics/redis/metrics.go:99-157 | Summed over labels, downloads equal download reports and installs plus failures equal deploy reports since the last clear, exactly while no label has more events of a kind than a counter holds |
| Conservation.ActiveConserved | internal/adapters/metrics/redis/metrics.go:122-157 | Summed over labels, active counts each distinct named client once, plus once more those who left an empty label |
| Conservation.CountsTotal | internal/adapters/metrics/redis/metrics.go:99-121 | The per-label counts of a field add up to its occurrences |
| ReportProtocol.OneActiveSetPerClient | internal/adapters/metrics/redis/metrics.go:122-131 | In every interleaving a client is in at most one non-empty-label active set, the one its pointer names |
| ReportProtocol.ReachableInv | internal/adapters/metrics/redis/metrics.go:122-172 | Every interleaving keeps "member implies pointer" and in-flight pointer values current |
| ReportProtocol.Serializable | internal/adapters/metrics/redis/metrics.go:107-172 | An interleaving whose clears are covered ends in the state of running its requests one at a time in writing order |
| ReportProtocol.SerialThroughoutIff | internal/adapters/metrics/redis/metrics.go:107-172 | At every moment of an interleaving the state is the serial one if and only if every clear is covered |
| ReportProtocol.IndexedThroughoutIff | internal/adapters/metrics/redis/metrics.go:159-171 | At every moment of an interleaving all counted and active labels are listed if and only if every clear is covered |
| ReportProtocol.DownloadDuringClear | internal/adapters/metrics/redis/metrics.go:159-171 | The three-step interleaving that leaves a counter behind, which the next clear misses and a later download counts on from |
| ReportProtocol.InterleavedReplay | internal/adapters/metrics/redis/metrics.go:107-172 | So its metrics are the replay of those requests |
| ReportProtocol.CoveredClear | internal/adapters/metrics/redis/metrics.go:159-171 | Deleting by a longer label list than the current one equals deleting by the current one |
| ReportProtocol.OutdatedClearExact | internal/adapters/metrics/redis/metrics.go:159-171 | On any keyspace, a clear with a given label list keeps the index complete exactly when the list has every counted or active label |
| ReportProtocol.StaleReadExact | internal/adapters/metrics/redis/metrics.go:124-130 | A report with an out-of-date pointer value keeps members pointed under exactly the stated condition |
| Packages.MaxOrdinalIsLast | internal/adapters/persistence/postgres/repository.go:834-840 | The maximum ordinal the query aggregates is that of the last entry in ordinal order |
| Packages.CommitExact | internal/adapters/persistence/postgres/repository.go:724-749 | A commit succeeds exactly when the column has room and the next label is free; it appends one numbered, labelled row |
| Packages.CommitKeepsDense | internal/adapters/persistence/postgres/repository.go:724-749 | A history numbered 1..n stays so, and a commit on it fails only at the 32-bit maximum |
| Packages.DenseWellKept | internal/adapters/persistence/postgres/schema.sql:71-72 | A history numbered 1..n with matching labels satisfies both unique indexes |
| Packages.FirstWithLabel | internal/application/service.go:382-387 | The first entry with the label, or none |
| Packages.RollbackExact | internal/application/service.go:372-402 | When a rollback is not found, conflicts, or succeeds, and the exact entry it then appends |
| Rollbacks.AttemptGrows | internal/application/service.go:392-402 | One rollback keeps the indexes and provenance and the newest app version |
| Rollbacks.Root | internal/application/service.go:396-402 | Following original labels ends at a non-rollback entry with the same payload |
| Rollbacks.Provenance | internal/application/service.go:368-402 | Any run of rollbacks appends only rollbacks naming earlier entries of the same payload, and keeps the newest app version |
| Rollbacks.NoNewPayload | internal/application/service.go:368-402 | From a history without rollbacks, each later entry delivers the payload of an original package |
| Rollbacks.SourceOfNewEntry | internal/application/service.go:396-402 | A new entry's original label names an entry of smaller ordinal with the same payload |
| Rollbacks.UnlabelledSucceedIff | internal/application/service.go:376-402 | k unlabelled rollbacks on a pair of one app version all succeed exactly when k more entries fit |
| Rollbacks.AlternatingRollback | internal/application/service.go:376-402 | They append exactly k entries, the newest delivering A for odd k and B for even k |
| Rollbacks.DenseHasRoom | internal/adapters/persistence/postgres/repository.go:834-840 | A dense history has room exactly up to the ordinal column's maximum |
| OptimisticCommit.StepRows | internal/adapters/persistence/postgres/repository.go:716-749 | What each step does to each deployment's rows: a read nothing, a clear empties its own, an insert adds its row unless ordinal or label is taken |
| OptimisticCommit.WellKeptAlways | internal/adapters/persistence/postgres/repository.go:724-749 | Every interleaving keeps both unique indexes in every deployment |
| OptimisticCommit.LabelledAlways | internal/adapters/persistence/postgres/repository.go:733-734 | Every interleaving keeps each label "v" and the ordinal, where it was so at the start |
| OptimisticCommit.NoDuplicates | internal/adapters/persistence/postgres/repository.go:724-749 | In no interleaving do two rows of a deployment share an ordinal or label, from any history the unique indexes admit |
| OptimisticCommit.LabelClashIsOrdinalClash | internal/adapters/persistence/postgres/repository.go:733-734 | A version label is taken exactly when its ordinal is |
| OptimisticCommit.PlaceKeeps | internal/adapters/persistence/postgres/schema.sql:71-72 | A row admitted by the unique indexes leaves the history ordered and without duplicates |
| OptimisticCommit.StaleInsertExact | internal/adapters/persistence/postgres/repository.go:728-747 | An insert with an ordinal read earlier fails exactly when it is taken, and keeps the numbering exactly when it is still the next |
| OptimisticCommit.DenseAlways | internal/adapters/persistence/postgres/repository.go:724-749 | Without a clear between a commit's read and insert, ordinals are always exactly 1..n with matching labels |
| OptimisticCommit.DenseThroughoutIff | internal/adapters/persistence/postgres/repository.go:724-749 | At every moment of an interleaving all ordinals are 1..n if and only if no insert comes in past the next ordinal |
| OptimisticCommit.ClearDuringCommit | internal/adapters/persistence/postgres/repository.go:716-749 | A read, a clear and the insert leave one package numbered after the cleared ones |
| OptimisticCommit.FirstInsertWins | internal/adapters/persistence/postgres/repository.go:728-747 | Then an insert succeeds exactly when no other commit got in since its read |
| OptimisticCommit.AtomicCommit | internal/adapters/persistence/postgres/repository.go:724-749 | With nothing in between, the two steps are the one-step commit |
| UpdateCheck.SelectPackage | internal/application/service.go:463-480 | The backwards search finds the last eligible package, or none exactly when none is eligible |
| UpdateCheck.CheckHistory | internal/application/service.go:426-441 | The package found is offered unless the client already has its hash |
| UpdateCheck.NewestDecides | internal/application/service.go:417-480 | Exactly which clients the newest package is offered to, field by field; all others are answered as by the history before it |
| UpdateCheck.OfferedAreAllowed | internal/application/service.go:426-476 | Whatever is offered is an enabled, version-matching package of the history rolled out to the client, described as it is |
| UpdateCheck.AppendChangesIff | internal/application/service.go:463-480 | Appending a package redirects a client exactly when the client is eligible for it |
| UpdateCheck.AdoptionSettles | internal/application/service.go:426-429 | A client that adopts the offered hash is offered nothing more |
| UpdateCheck.RollbackRedirects | internal/application/service.go:396-402 | After a rollback to an enabled, fully rolled-out target, version-matching clients are directed to its hash and all others' answers stay |
| UpdateCheck.RaisingRollout | internal/application/service.go:472-476 | Raising one package's rollout moves a client only forward, and only to that package |
| UpdateCheck.RolloutExact | internal/application/service.go:513-517 | Of the words 0..n-1 exactly (n/100)*r + min(n%100, r) are selected, r clamped to 0..100 |
| UpdateCheck.RolloutShare | internal/application/service.go:513-517 | Over all 2^32 words, 0 <= 100*count - r*2^32 <= 384 |
| Requests.ServeKeepsIntegrity | internal/adapters/persistence/postgres/schema.sql:33-72 | Every request keeps unique emails, keys and names, both package indexes and the foreign keys |
| Requests.RunKeepsIntegrity | internal/adapters/persistence/postgres/schema.sql:33-72 | So does every run of requests |
| Answers.CreateAppAnswer | internal/adapters/persistence/postgres/repository.go:285-310 | Creating an app is refused exactly when the creator belongs to an app of the name; the two rows it adds |
| Answers.ManualCreationAnswer | internal/application/service.go:184-196 | Manual provisioning creates the app and no deployment |
| Answers.RenameAnswer | internal/adapters/persistence/postgres/repository.go:373-390 | The owner's rename is refused exactly when they belong to another app of the name; it changes the name only |
| Answers.SameNameAnswer | internal/application/service.go:203-212 | No new name, or the name the app has, is accepted and changes nothing |
| Answers.UnknownEmailAnswer | internal/adapters/persistence/postgres/repository.go:408-562 | Transfer, addition and removal by an unknown email are answered NotFound and change nothing |
| Answers.KnownEmailAnswer | internal/adapters/persistence/postgres/repository.go:408-562 | The answer and the whole new state of the owner's transfer, addition and removal of a known account |
| Answers.CreateDeploymentAnswer | internal/adapters/persistence/postgres/repository.go:605-623 | A new deployment is refused exactly when its id or key is in use anywhere or its name in the app |
| Answers.RenameDeploymentAnswer | internal/application/service.go:305-318 | A deployment's rename is refused exactly when another of the app has the name; it changes the name only |
| Answers.ClearAnswer | internal/adapters/persistence/postgres/repository.go:716-722 | The owner's clear succeeds and removes that history only |
| Answers.RollbackAnswer | internal/application/service.go:359-403 | A member's rollback request has the error, or the new history, of the rollback on that history |
| Answers.MissingDeploymentAnswer | internal/application/service.go:305-368 | A member is told NotFound about a deployment the app does not have |
| Answers.FailureChangesNothing | internal/application/service.go:203-403 | A request on an app that answers with an error has changed nothing |
| Answers.DefaultCreationAnswer | internal/application/service.go:184-197 | A free name and unused keys always give the app with its two deployments, whatever other apps' deployments are called |
| Answers.FailedDefaultsLeaveApp | internal/application/service.go:189-195 | When all keys for Production are in use the creation answers Conflict and the app stays |
| Ownership.RolesAfter | internal/adapters/persistence/postgres/repository.go:408-562 | When transfer, add and remove succeed, and the role of every account afterwards |
| Ownership.OwnerKeptIff | internal/adapters/persistence/postgres/repository.go:285-452 | Every request keeps at most one owner, and exactly one unless it is the owner adding their own email |
| Ownership.OwnersOverRuns | internal/adapters/persistence/postgres/repository.go:285-562 | Over all runs and apps, including those created on the way: at most one owner, and exactly one everywhere if and only if no owner added their own email |
| Ownership.OwnerlessStep | internal/adapters/persistence/postgres/repository.go:751-767 | From an ownerless state no request restores an owner, adds a member, renames or deletes |
| Ownership.OwnerlessForever | internal/adapters/persistence/postgres/repository.go:751-767 | The same over all later runs |
| Ownership.OwnEmailRun | internal/adapters/persistence/postgres/repository.go:438-452 | A creation and the creator's adding their own email, after which nobody owns the app |
| Ownership.CreatedOwned | internal/adapters/persistence/postgres/repository.go:302-308 | A new app's one owner is its creator |
| Frame.StrangersChangeNothing | internal/application/service.go:305-403 | A request by an account with no row on an app leaves its row, members, deployments and packages as they were |
| Frame.StrangersRun | internal/application/service.go:305-403 | So does every run of such requests |
| Frame.OnDeploymentElsewhere | internal/adapters/persistence/postgres/repository.go:662-674 | Statements filtering by deployment id alone stay inside the app the id was resolved in |
| Frame.OnlyThatDeployment | internal/adapters/persistence/postgres/repository.go:662-749 | Rename, delete, clear and rollback on a deployment leave every other deployment's row and history as they were |
| Frame.RefusalsExact | internal/adapters/persistence/postgres/repository.go:751-767 | What anyone but the owner is answered: strangers NotFound, members Forbidden except for leaving and rolling back |
| Frame.DeletedAppGone | internal/adapters/persistence/postgres/repository.go:394-406 | Deleting an app succeeds exactly for its owner and leaves no member, deployment or package of it |
| Frame.DroppedDeploymentGone | internal/adapters/persistence/postgres/repository.go:676-688 | Deleting a deployment succeeds exactly for the owner of an app that has it, and takes it and its history only |
| Frame.CollaboratorsOnlyAppend | internal/adapters/persistence/postgres/repository.go:716-767 | A member who is not the owner can only leave, or append rollbacks |
| Lineage.HistoriesEvolve | internal/application/service.go:320-403 | A request leaves a history alone, empties it, or makes one rollback attempt on it |
| Lineage.HistoriesOverRuns | internal/application/service.go:359-403 | Over every run, from any history: no payload is new, provenance is kept where it held, and so is the numbering 1..n |
| Lineage.RollbackRequests | internal/application/service.go:359-403 | Members' rollback requests on a deployment act on its history as the rollbacks one after another |
| Lineage.AlternatingRequests | internal/application/service.go:376-402 | k unlabelled rollback requests with room append k packages, delivering A for odd k and B for even k |
| Lineage.RollbackIsAttempt | internal/application/service.go:359-403 | A rollback request is one attempt on its deployment's history and touches no other |
| Resolution.FirstColon | internal/adapters/persistence/postgres/repository.go:315-318 | The position of the first colon |
| Resolution.PlainNameAnswers | internal/adapters/persistence/postgres/repository.go:357-370 | What a name without a colon is answered, by how many of the account's apps have it and whether it owns one |
| Resolution.QualifiedNameAnswers | internal/adapters/persistence/postgres/repository.go:313-346 | The same for a name qualified by an email, counting only apps whose owner has it |
| Resolution.NamedResolvesIff | internal/adapters/persistence/postgres/repository.go:312-371 | A name unique among the account's apps resolves to its app and nothing else exactly when it has no colon |
| Resolution.CreatedResolvesIff | internal/adapters/persistence/postgres/repository.go:285-310 | So for a created app and its creator |
| Resolution.RenamedResolvesIff | internal/adapters/persistence/postgres/repository.go:373-392 | So for a renamed app and its owner |
| Resolution.QualifiedReaches | internal/adapters/persistence/postgres/repository.go:313-346 | A name qualified by an email resolves to that owner's app, whatever others of the name the caller has |
| Resolution.OneAnswerEverywhereIff | internal/adapters/persistence/postgres/repository.go:312-371 | Every name has one answer for every account exactly when no account owns two apps of one name |
| Resolution.NamesKept | internal/adapters/persistence/postgres/repository.go:769-790 | Every request but a transfer keeps owned names unique |
| Resolution.OneAnswerIff | internal/adapters/persistence/postgres/repository.go:357-370 | Resolution is independent of row order exactly unless two owned candidates exist |
| Resolution.TransferNamesUniqueIff | internal/adapters/persistence/postgres/repository.go:408-436 | A transfer keeps owned names unique, and names unambiguous, exactly when the new owner has no other app of the name |
| Resolution.TransferRun | internal/adapters/persistence/postgres/repository.go:408-436 | Two creations and a transfer, after which one name has two answers |
| Resolution.ColonRun | internal/adapters/persistence/postgres/repository.go:312-318 | A creation under a name with a colon, after which the name is answered NotFound although the app is there |
| Repository.Store.GetByEmail | internal/adapters/persistence/postgres/repository.go:128-140 | The account with the email, if any |
| Repository.Store.ListCollaborators | internal/adapters/persistence/postgres/repository.go:454-479 | The row loop builds exactly the collaborator map of the app |
| Repository.Store.IsUniqueAppName | internal/adapters/persistence/postgres/repository.go:769-790 | True exactly when no other app of the account has the name |
| Repository.Store.Candidates | internal/adapters/persistence/postgres/repository.go:331-356 | The row loop collects exactly the apps the name may mean, each once and with its names and collaborators |
| Repository.Store.constructor | internal/adapters/persistence/postgres/schema.sql:3-69 | The tables start empty |
| Repository.Store.DeploymentNames | internal/adapters/persistence/postgres/repository.go:570-588 | Exactly the names of the app's deployments, in ascending order |
| Repository.Store.GetByName | internal/adapters/persistence/postgres/repository.go:312-371 | An answer the resolution relation allows, in any row order, with the app's deployment names and collaborators |
| Repository.CallerOwns | internal/adapters/persistence/postgres/repository.go:363-369 | The collaborator map has an owner entry marked as the caller's exactly when the caller owns the app |
| Repository.Store.QueryCurrentPackage | internal/adapters/persistence/postgres/repository.go:792-806 | The row of greatest ordinal, or none exactly when there are no rows |
| Repository.Store.Create | internal/adapters/persistence/postgres/repository.go:285-310 | New state and error of app creation |
| Repository.Store.Update | internal/adapters/persistence/postgres/repository.go:373-390 | New state and error of an app rename |
| Repository.Store.Delete | internal/adapters/persistence/postgres/repository.go:394-406 | New state and error of an app deletion with its cascades |
| Repository.Store.Transfer | internal/adapters/persistence/postgres/repository.go:408-436 | New state and error of a transfer |
| Repository.Store.AddCollaborator | internal/adapters/persistence/postgres/repository.go:438-452 | New state and error of adding a collaborator |
| Repository.Store.RemoveCollaborator | internal/adapters/persistence/postgres/repository.go:538-562 | New state and error of a removal, by oneself or by the owner |
| Repository.Store.CreateDeployment | internal/adapters/persistence/postgres/repository.go:605-623 | New state and error of creating a deployment |
| Repository.Store.GetDeployment | internal/adapters/persistence/postgres/repository.go:625-644 | The app's deployment of the name with its current package, or why not |
| Repository.Store.GetByKey | internal/adapters/persistence/postgres/repository.go:646-660 | A deployment with the key and its current package, or NotFound exactly if there is none |
| Repository.Store.UpdateDeployment | internal/adapters/persistence/postgres/repository.go:662-672 | New state and error of renaming a deployment by id |
| Repository.Store.DeleteDeployment | internal/adapters/persistence/postgres/repository.go:676-688 | New state and error of deleting a deployment with its packages |
| Repository.Store.ClearHistory | internal/adapters/persistence/postgres/repository.go:716-722 | New state and error of deleting a deployment's packages |
| Repository.Store.CommitRollback | internal/adapters/persistence/postgres/repository.go:724-749 | New state, error and returned row of a commit |
| Repository.OwnerInMap | internal/adapters/persistence/postgres/repository.go:341-346 | The map shows an email as owner exactly when its account owns the app |
| Repository.SelfInMap | internal/adapters/persistence/postgres/repository.go:543-546 | The map marks an email as the caller exactly when it is the caller's and the caller is a member |
| Listing.GroupNames | internal/adapters/persistence/postgres/repository.go:493-502 | The loop groups the rows by app, in row order |
| Listing.BatchedNamesAgree | internal/adapters/persistence/postgres/repository.go:481-503 | Each group lists exactly that app's deployment names, ascending |
| Listing.AscendingUnique | internal/adapters/persistence/postgres/repository.go:570-573 | There is only one such list, so it is what asking for the one app gives |
| Listing.GroupCollaborators | internal/adapters/persistence/postgres/repository.go:518-535 | The loop groups the rows by app and email, losing none and adding none |
| Listing.BatchedCollaboratorsAgree | internal/adapters/persistence/postgres/repository.go:505-536 | Each group is that app's collaborator map |
| Listing.CollaboratorMapUnique | internal/adapters/persistence/postgres/repository.go:454-479 | The collaborator map is determined by the tables |
| Listing.GroupCurrent | internal/adapters/persistence/postgres/repository.go:822-831 | The loop maps each deployment to its row |
| Packages.NewestIsLast | internal/adapters/persistence/postgres/repository.go:792-806 | The row of greatest ordinal is the last entry of the history |
| Listing.BatchedCurrentAgrees | internal/adapters/persistence/postgres/repository.go:808-832 | The batched current package equals the last entry of the history, and is absent exactly when that is empty |
| Listing.ListApps | internal/adapters/persistence/postgres/repository.go:267-282 | Every listed app has the names and collaborators that asking for it alone gives |
| Listing.ListDeployments | internal/adapters/persistence/postgres/repository.go:595-602 | Every listed deployment has its own current package |
| Provisioning.FirstAccepted | internal/application/service.go:281-290 | The first try that is not refused as a duplicate |
| Provisioning.TryKeysExact | internal/application/service.go:279-295 | Retrying succeeds exactly for an owner with an accepted try, adding one deployment, and otherwise changes nothing |
| Provisioning.TakenNameFails | internal/application/service.go:279-295 | No key helps when the name is taken |
| Provisioning.DefaultsExact | internal/application/service.go:184-197 | A default creation leaves exactly Production and Staging, under different keys |
| Provisioning.RenamedDeploymentFound | internal/application/service.go:305-318 | After a rename the new name finds the deployment, the old one nothing, and the others what they found before |
| Service.ServedIsServe | internal/application/service.go:203-403 | Whatever a request by name does is a step of the request runs, on an app the caller belongs to |
| Service.Service.CreateDeploymentWithGeneratedKey | internal/application/service.go:279-295 | The retry loop does what trying the keys in order does, in one to three attempts |
| Service.Service.CreateApp | internal/application/service.go:184-197 | State after creation with or without defaults, and an app the new name may resolve to |
| Service.Service.UpdateApp | internal/application/service.go:203-212 | Rename of the resolved app; the result is the re-read under the name written |
| Service.Service.DeleteApp | internal/application/service.go:214-220 | Deletion of the resolved app |
| Service.Service.TransferApp | internal/application/service.go:222-228 | Transfer of the resolved app |
| Service.Service.AddCollaborator | internal/application/service.go:230-236 | Adding to the resolved app |
| Service.Service.RemoveCollaborator | internal/application/service.go:246-252 | Removal from the resolved app |
| Service.Service.CreateDeployment | internal/application/service.go:267-277 | A supplied key gets one try, none supplied the generated ones |
| Service.Service.Locate | internal/application/service.go:298-302 | The deployment of the name inside the app of the name, or why not |
| Service.Service.UpdateDeployment | internal/application/service.go:305-318 | Rename of the located deployment, which is what the re-read returns |
| Service.Service.DeleteDeployment | internal/application/service.go:320-330 | Deletion of the located deployment |
| Service.Service.ClearHistory | internal/application/service.go:344-357 | Packages first, then the metrics under the deployment's key; if the first fails neither store changes, and if the metrics are those of a log both start over |
| Service.Service.Rollback | internal/application/service.go:359-403 | The rollback request on the located deployment, returning the appended entry |
| Service.Service.FindTarget | internal/application/service.go:372-391 | The entry before the newest, or the first with the label |
| Service.Service.CheckForUpdate | internal/application/service.go:417-442 | The answer for the one deployment holding the key, or NotFound exactly if none does |
| Service.ClearedStartsOver | internal/application/service.go:344-357 | After a clear the next ordinal is 1, the key's metrics are empty, and separated deployments' metrics are as before |
| Service.ClearedInLog | internal/application/service.go:344-357 | In every reachable metrics state the clear cannot fail, is the log's clear of the key, and makes both stores start over |

## Left out

- HTTP routing, authentication middleware, JSON and status mapping: plumbing with small case tables.
- S3 and MinIO storage, configuration, server lifecycle and migrations: foreign calls and wiring.
- Access keys, sessions, account bootstrap and health checks: simple rows with little branching.
- SQL, pgx and Redis client internals, connection failures, timeouts and retries: each statement or
  transaction is one atomic step, and the pointer read fails only for a missing key.
- SHA-1 and the semantic-version matcher: parameters of the update check (an arbitrary word for each text,
  an arbitrary relation on versions).
- Random deployment keys, generated row ids and the wall clock: inputs of the requests, not
  constrained to be fresh or increasing.
- Read-only service wrappers (`GetApp`, `GetDeployment`, `GetHistory`, `GetMetrics`, the lists): they resolve and then
  call a query that is modelled. The sorting by name after the listings is not modelled.
- Concurrency beyond the two step models: overlapping reports of one client, transfers or renames that
  overlap, and requests interleaved inside one service call.
- Deleting a deployment leaves its Redis metrics behind, in the source as in the model; nothing is claimed about them.
- Rows whose nullable text columns hold NULL, which the package scan rejects: text columns are plain strings.
- Permission values other than Owner and Collaborator: the code writes no others.
- The database's collation: an arbitrary total order on text.
- Repository.Store.Update: ends at the write; the re-read by name that follows in the source is made by Service.Service.UpdateApp.
- Repository.Store.UpdateDeployment: ends at the write; the re-read that follows in the source is made by Service.Service.UpdateDeployment.
- Listing.ListApps: the query results are inputs constrained to be what the SQL asks for; running the queries is not modelled.
- Packages.CommitExact: ordinals are natural numbers of the 32-bit column; negative ones, which nothing writes, are not modelled.
