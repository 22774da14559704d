# Verification of the directory server's core

The directory server stores agent records by content identifier (CID), indexes them by semantic label,
exchanges labels with other peers, mirrors remote directories and answers searches. This project models
the parts of it that keep state consistent and proves what they keep, for every input and every run.

`dafny verify dfyconfig.toml` checks everything.

| file | what it models |
|---|---|
| `Text.dfy` | splitting and joining, and the path cleaning the key-value datastore applies to every key |
| `LabelKeys.dfy`, `Records.dfy` | label keys `/<namespace>/<path>/<cid>/<peer>`, their validators, the labels of a record |
| `Metrics.dfy` | label counters |
| `RoutingIndex.dfy`, `RoutingRuns.dfy`, `LabelLifetime.dfy` | the routing datastore as a value, its steps, and what holds in every run |
| `RoutingConcurrency.dfy` | calls of Publish and Unpublish at the same time, with load, check, commit and save as separate steps |
| `Router.dfy` | the routing operations as a class over the datastore, loop by loop, each proved equal to its step |
| `SyncProtocol.dfy`, `PublicationProtocol.dfy` | the two job services as interleaved steps, with the read and the save of a row apart; publications run over the routing index and the search tables |
| `SearchFilters.dfy`, `SearchDatabase.dfy` | from queries to filters to a join-filter-distinct query, against a plain meaning |
| `CachedStore.dfy`, `LocalFs.dfy` | the caching wrapper and the two-file local store |
| `CidCodec.dfy` | hex, base32, varints, multihashes and the conversions between OCI digests and CIDs |
| `ZotConfig.dfy` | the registry list that sync workers edit |
| `Annotations.dfy` | OCI manifest annotations, written and read back |

A run is a sequence of states and the steps between them; results about runs quantify over all of them.
What the server gets from outside (the clock, whether a database or file write succeeds, what a peer
announces, which records can still be pulled) is a parameter of a step.

## Where the code and its documentation differ

The model follows the code.

- `server/routing/metrics.go` documents a counter as the number of local records with a label. The code
  counts occurrences, so a record that names a skill twice counts twice. `RoutingRuns.CountsRecords`
  shows the two agree exactly when no record repeats the label.
- The example above `ParseEnhancedLabelKey` shows a label without its leading slash; the code returns it
  with the slash.
- `server/routing/ROUTING.md` puts the counter update of a Publish before the batch commit; the code
  commits first, so counters can lag behind the index when the second write fails.

## Properties that hold only under a condition

Each of these is stated as an if-and-only-if or comes with the failing case.

- Two triples share a label key exactly when they have the same parts in the same order (`SameKey`), so a
  slash in a CID can collide (`SlashesCollide`).
- A label survives storage exactly when path cleaning has nothing to change in it (`StoredKeyParsesBack`),
  and publishing keeps the index exact exactly for records with only such labels (`PublishKeepsIndex`).
- An announcement leaves the index exact and the counters usable if and only if the key it is stored under
  is neither the counters' key, nor a label key of this peer that is not stored, nor a new record key for a
  CID that has labels (`AnnounceKeepsIndex`). The handler checks the key as announced and the datastore
  cleans it afterwards, so keys such as `/skills/../records/<cid>/.` fail the condition (`ClimbingAccepted`,
  `ClimbingPublishes`, `ClimbingLosesCounters`). The run theorems cover every announcement that meets it.
- Label metadata stored under the counters' key decodes as counters without a map. No operation brings the
  counters back (`CountersStayLost`), and publishing a new record with labels then panics (`PublishPanics`).
- Exact counters stay exact through a step if and only if the step meets its condition
  (`StepKeepsCounts`): a stray Unpublish must find its labels uncounted, an orphan cleanup must drop only
  records without labels, and a counter write may fail only where there is nothing to count. Runs that
  break it: `StrayUnpublishUndercounts`, `OrphanCleanupOvercounts`.
- Calls at the same time keep the index exact. Concurrent Publishes never double a count
  (`NeverDoubledInRuns`); one that loaded exact counters saves exact ones if and only if every other CID
  published since then has no labels (`PublishSaveExact`, `OverlappingPublishesLose`), and with Unpublish in
  play if and only if all commits since then add up to its own change (`SaveExact`,
  `OverlappedUnpublishOvercounts`).
- A step loses a sync if and only if it gives up reverting one that is marked IN_PROGRESS
  (`StepLosesNone`); `LosingRun` is such a run, and the sync never gets a work item again
  (`AbandonedIsLost`).
- A publication may be sent twice only after a refused mark that leaves it PENDING (`StepSendsOnce`,
  `EnqueuedOnceInRuns`). Whenever one that was sent is PENDING, the scheduler idle and the queue not full, the
  next tick can send it again, and only then (`CanSendAgain`); `ResendingRun` is such a run.
- Pages of GetRecords and GetRecordCIDs need not hold the same CIDs, as neither query has an order; they
  agree in length, and without paging in content (`CidsOfRecordsInRuns`). Any CID that passes may be a whole
  first page of one (`AnyFirstPage`).
- The cached store differs from its source when a request names a CID by a path such as `x/../<cid>`
  (`ReadAgrees`, `StrayNameDiffers`) or when a cache delete fails (`DeleteCoherent`, `StaleCopyDiffers`).
- A local Delete cut short on a record with metadata breaks the store for that record, permanently
  (`DeleteKeepsInv`, `CutDeleteSticks`, `StuckForever`).
- Digests come back in lower case; CIDs come back unchanged if canonical with codec 1
  (`DigestRoundTrip`, `CidRoundTrip`).
- Removing a registry URL unlists another exactly when every entry that lists the other lists both
  (`RemovalUnlistsOther`, `SharedEntryRemoved`); with one URL per entry what is listed follows the last
  edit (`EntriesInRuns`). Two syncs of one registry share its entry (`SyncsShareEntry`).

## Model

| member | source | states |
|---|---|---|
| `Text.NewKeyFixed` | server/routing/routing_local.go:63-66 | cleaning a datastore key is the identity exactly on the root and on rooted keys with clean components |
| `Text.NewKeyIsClean` | server/routing/routing_local.go:63-66 | whatever the string, the stored key is the root or clean |
| `LabelKeys.BuildParse` | server/routing/label_metadata.go:57-83 | parsing fails exactly without a leading slash or with fewer than five parts; otherwise building from the parsed triple gives back the key |
| `LabelKeys.ParseBuild` | server/routing/label_metadata.go:57-83 | a built key parses back to its triple if and only if the label has a namespace and a path and cid and peer have no slash |
| `LabelKeys.SameKey` | server/routing/label_metadata.go:57-59 | two triples share a key if and only if they have the same parts in the same order |
| `LabelKeys.SlashesCollide` | server/routing/label_metadata.go:57-59 | a part moved from the end of the label to the front of the CID leaves the key unchanged |
| `LabelKeys.BuildInjective` | server/routing/label_metadata.go:57-83 | for labels with a path and slash-free cid and peer, different triples have different keys |
| `LabelKeys.StoredKeyParsesBack` | server/routing/routing_local.go:87-100 | a label is recovered from its stored key if and only if path cleaning leaves it alone |
| `LabelKeys.ExtractExactly` | server/routing/validators/validators.go:401-425 | exactly the keys that the handler accepts, and the CID it goes on with |
| `LabelKeys.ValidateExactly` | server/routing/validators/validators.go:22-72 | exactly the keys and values that the validators accept, over the parts of the key |
| `LabelKeys.ExtractorsAgree` | server/routing/validators/validators.go:401-425 | for a key some namespace validator accepts, the three CID extractors agree if and only if it starts with a slash |
| `LabelKeys.SelectFirstValid` | server/routing/validators/validators.go:75-94 | the first value the validator accepts, none before it, or failure when it accepts none |
| `Records.CollectLabels` | server/routing/routing_local.go:374-429 | the loops compute the labels of a record in their order |
| `Records.LabelMembers` | server/routing/routing_local.go:374-429 | a label is one of a record's exactly when it is a namespace prefix before a skill name, a locator type or the rest of an extension name under the matching schema |
| `Records.LabelOccurrences` | server/routing/routing_local.go:374-429 | a record has a label exactly as often as its skills, extensions under the schemas and locators give it, and how many labels it has in all |
| `Records.LabelPositions` | server/routing/routing_local.go:388-425 | skill labels come first and locator labels last, in the order of the record |
| `Records.LabelsHavePath` | server/routing/routing_local.go:374-429 | every label of every record lies in a namespace and has a path |
| `Metrics.Counting.Up` | server/routing/metrics.go:42-54 | adds one to a label's total, creating the entry if missing |
| `Metrics.Counting.Down` | server/routing/metrics.go:56-73 | takes one off, and drops the entry at zero |
| `Metrics.IncrementAllTotal` | server/routing/metrics.go:42-54 | counting labels up adds exactly their number of occurrences, label by label |
| `Metrics.DecrementAllTotal` | server/routing/metrics.go:56-73 | counting labels down takes off at most that number, stops at zero and never leaves a zero entry |
| `Metrics.IncrementDecrement` | server/routing/metrics.go:42-73 | up and down again restores the counters |
| `RoutingIndex.StepKeepsInv` | server/routing/routing_local.go:41-126 | Publish, Unpublish, an announcement that meets the condition of AnnounceKeepsIndex, stale cleanup and a republish cycle each keep this peer's label keys exactly the pairs of a published CID and one of its labels |
| `RoutingIndex.AnnounceKeepsIndex` | server/routing/routing_remote.go:185-234 | for every key, an announcement keeps the index exact and the counters usable if and only if the stored key is not the counters' key, not a label key of this peer that is not stored, and not a new record key for a CID with labels; at the counters' key only the counters go |
| `RoutingIndex.ClimbingAccepted` | server/routing/handler.go:83-105 | a key that climbs out of its namespace passes the handler's checks |
| `RoutingIndex.ClimbingPublishes` | server/routing/routing_remote.go:191-192 | stored as a record key it publishes a CID without its labels |
| `RoutingIndex.ClimbingLosesCounters` | server/routing/routing_remote.go:191-192 | stored over the counters it leaves counters without a map |
| `RoutingIndex.PublishKeepsIndex` | server/routing/routing_local.go:83-110 | publishing a new CID keeps the index exact if and only if cleaning changes none of its labels |
| `RoutingIndex.CleanStaleFacts` | server/routing/routing_remote.go:412-519 | stale cleanup changes neither the published set, nor the counters, nor this peer's labels |
| `RoutingIndex.OrphansArePublished` | server/routing/routing_remote.go:317-338 | the orphans a cycle finds are the published CIDs the store cannot pull |
| `RoutingIndex.OrphanDeletes` | server/routing/routing_remote.go:559-634 | exactly which keys the cleanup of an orphan deletes, over the parts of the key |
| `RoutingIndex.RepublishDeletes` | server/routing/routing_remote.go:546-556 | a cycle deletes what the cleanups of its orphans delete, and nothing else |
| `RoutingIndex.RepublishFacts` | server/routing/routing_remote.go:546-634 | a cycle leaves as published exactly the CIDs that can still be pulled, removes every local label of the others, and leaves well-formed keys of other peers and other CIDs, and the counters, untouched |
| `RoutingRuns.IndexExactInRuns` | server/routing/routing_local.go:41-126 | the index is exact in every state of every run of those steps |
| `RoutingRuns.StoredLabelsExact` | server/routing/routing_local.go:264-312 | labels read off the keys are the record's own for published CIDs and none for others |
| `RoutingRuns.PublishStores` | server/routing/routing_local.go:63-121 | a first Publish stores the record key, a key per label, and adds to each label's total the number of skills, extensions and locators that give it |
| `RoutingRuns.UnpublishRemoves` | server/routing/routing_local.go:329-366 | Unpublish removes the same keys and takes the same numbers off, down to zero |
| `RoutingRuns.PublishTwice` | server/routing/routing_local.go:63-75 | a repeated Publish changes nothing |
| `RoutingRuns.CountsRecords` | server/routing/metrics.go:29-33 | occurrences equal the number of records that carry the label exactly when none carries it twice |
| `RoutingRuns.MetricsBounded` | server/routing/routing_local.go:337-366 | in every run: no total above the true count without orphan cleanup, none below it without stray Unpublish, no zero entry ever |
| `RoutingRuns.StepKeepsCounts` | server/routing/metrics.go:42-73 | from exact counters each step leaves them exact if and only if it meets its condition, failed counter writes included |
| `RoutingRuns.CountsExactInRuns` | server/routing/routing_local.go:87-121 | counters are exact until the first step that misses its condition, and wrong right after it |
| `RoutingRuns.StrayUnpublishUndercounts` | server/routing/routing_local.go:337-356 | a run in which a stray Unpublish takes off another record's label |
| `RoutingRuns.OrphanCleanupOvercounts` | server/routing/routing_remote.go:559-634 | a run in which an orphan cleanup leaves counts of a record that is gone |
| `RoutingRuns.CountersStayLost` | server/routing/metrics.go:81-115 | counters without a map stay so through every later operation |
| `RoutingRuns.PublishPanics` | server/routing/metrics.go:42-54 | over them a Publish of a new record with labels writes nothing and does not succeed |
| `RoutingRuns.WithoutCounters` | server/routing/metrics.go:56-60 | over counters without a map a record without labels is still published, and any record unpublished |
| `RoutingRuns.PublishUnpublish` | server/routing/routing_local.go:314-372 | publishing a new CID and unpublishing it restores records, labels and counters |
| `RoutingConcurrency.CommitFacts` | server/routing/routing_local.go:77-115 | a commit keeps the index exact even when another call has published or unpublished the CID since the check |
| `RoutingConcurrency.IndexExactInRuns` | server/routing/routing_local.go:53-121 | however calls interleave between load, check, commit and save, the index is exact in every state |
| `RoutingConcurrency.SaveExact` | server/routing/routing_local.go:117-121 | a call that loaded exact counters saves exact ones if and only if all commits since its load add up to its own change |
| `RoutingConcurrency.NeverDoubledInRuns` | server/routing/routing_local.go:53-121 | in every interleaving of Publishes no total exceeds the true count, also for the same CID |
| `RoutingConcurrency.PublishSaveExact` | server/routing/routing_local.go:53-121 | and a Publish that loaded exact counters saves exact ones if and only if every other CID published since has no labels |
| `RoutingConcurrency.OverlappingPublishesLose` | server/routing/routing_local.go:53-121 | from any exact state, two Publishes that load before either saves lose a count |
| `RoutingConcurrency.OverlappedUnpublishOvercounts` | server/routing/routing_local.go:329-366 | a Publish that loads before an Unpublish and saves after it brings the counts back |
| `LabelLifetime.MetadataValidInRuns` | server/routing/label_metadata.go:23-54 | with a clock that never runs back, all stored label metadata passes Validate in every run |
| `LabelLifetime.ForeignKeyStep` | server/routing/routing_remote.go:185-234 | only its own announcement and the stale cleanup touch another peer's label, and what each writes |
| `LabelLifetime.ForeignHistory` | server/routing/routing_remote.go:398-409 | over a run, another peer's label changes by announcement and expiry alone |
| `LabelLifetime.RefreshedLabelSurvives` | server/routing/constants.go:45-47 | a key whose last announcement is at most 72h old whenever cleanup runs is never removed |
| `LabelLifetime.OneMissedRepublish` | server/routing/constants.go:15-18 | a key that is announced again within two 36h intervals after each announcement, so with at most one republish missed, stays stored |
| `LabelLifetime.TimestampStable` | server/routing/label_metadata.go:50-54 | while a key stays stored its first-seen time does not change |
| `LabelLifetime.UnrefreshedLabelExpires` | server/routing/routing_remote.go:412-519 | a cleanup more than 72h after the last announcement removes the key for good |
| `LabelLifetime.GoneByDeadline` | server/routing/constants.go:15-22 | a key last announced at t, with a cleanup in every 48h window since t, is gone by t + 72h + 48h |
| `LabelLifetime.CleanupDeletes` | server/routing/routing_remote.go:412-519 | exactly which entries a stale cleanup deletes, with the age in seconds |
| `LabelLifetime.StoredForSeconds` | server/routing/constants.go:45-47 | after its last announcement a key is stored exactly as long as no cleanup runs more than 259200 seconds later |
| `LabelLifetime.GoneInSeconds` | server/routing/constants.go:19-22 | with a cleanup in every 172800 seconds it is gone 432000 seconds after that |
| `Router.SkillMatchIsHierarchical` | server/routing/routing_local.go:216-234 | a skill query matches a label exactly when its path components lead the label's |
| `Router.AncestorQueryMatches` | server/routing/routing_local.go:216-234 | every ancestor of a matching skill query matches |
| `Router.ListExactInRuns` | server/routing/routing_local.go:146-213 | in every reachable state and key order, listing finds each published CID whose own labels satisfy all queries, once, with exactly its labels |
| `Router.ListAnswersInRuns` | server/routing/routing_local.go:146-262 | in every reachable state listing finds exactly the published CIDs whose records answer every query: a skill at or below the one asked for, a locator of the type asked for, anything for an unspecified query and nothing for an unknown one |
| `Router.Routing.Publish` | server/routing/routing_local.go:41-126 | error cases without effect; otherwise the new datastore is the Publish step's, counters without a map included, and when the call succeeds or panics |
| `Router.Routing.StageLabels` | server/routing/routing_local.go:83-110 | the batch holds one fresh entry per label key, and the counters count every label |
| `Router.Routing.Unpublish` | server/routing/routing_local.go:314-372 | error cases without effect; otherwise the new datastore is the Unpublish step's, counters without a map included |
| `Router.Routing.UnstageLabels` | server/routing/routing_local.go:337-356 | the keys to delete are the label keys, and the counters count every label out |
| `Router.Routing.HandleLabelNotification` | server/routing/routing_remote.go:185-234 | a first sighting stores both times, a later one only moves last-seen |
| `Router.Routing.CleanupStaleRemoteLabels` | server/routing/routing_remote.go:412-519 | the four namespace scans delete exactly the malformed, unreadable, invalid or stale remote entries |
| `Router.Routing.CleanupLabelsForCid` | server/routing/routing_remote.go:559-634 | deletes the record key, the CID's own local labels and malformed label keys, and nothing else |
| `Router.Routing.RepublishLocalLabels` | server/routing/routing_remote.go:301-370 | one cleanup after another deletes what the whole cycle is to delete |
| `Router.Routing.GetRecordLabels` | server/routing/routing_local.go:264-312 | each label that this peer's keys give the CID, once |
| `Router.Routing.QueryMatchesLabels` | server/routing/routing_local.go:216-262 | the loops decide the match of one query |
| `Router.Routing.MatchesAllQueries` | server/routing/routing_local.go:197-213 | true exactly when the stored labels satisfy every query |
| `Router.Routing.ListLocalRecords` | server/routing/routing_local.go:146-193 | emits the matching CIDs in key order with their labels, all of them or the first `limit` |
| `SyncProtocol.RowsStep` | server/database/sqlite/sync.go:104-146 | only creation and the scheduler's own revert ever make a sync PENDING, although every save writes a whole row read earlier |
| `SyncProtocol.StepKeepsInv` | server/sync/scheduler.go:75-146 | every step of every thread keeps the protocol's invariant |
| `SyncProtocol.PendingNeverEnqueuedInRuns` | server/sync/scheduler.go:75-128 | in every interleaving, whatever status scans, reads and saves fail, a PENDING sync never had a work item enqueued and no create item is enqueued twice |
| `SyncProtocol.ConservedInRuns` | server/sync/worker.go:49-108 | everything enqueued is queued in order, with exactly one worker, or finished, and the queue stays within its capacity |
| `SyncProtocol.StepLosesNone` | server/sync/scheduler.go:81-102 | a step loses a sync if and only if it gives up reverting one that is marked IN_PROGRESS |
| `SyncProtocol.NoSyncLostInRuns` | server/sync/scheduler.go:81-102 | while no sync is given up so, every IN_PROGRESS sync the scheduler is not handling had its create item enqueued exactly once |
| `SyncProtocol.CreateItemIsSomewhere` | server/sync/worker.go:69-108 | and that item is in exactly one place: queued, held by one worker, or finished |
| `SyncProtocol.SettledStaysSettled` | server/controller/sync.go:98-119 | a sync neither PENDING nor in the scheduler's hands never gets another create item |
| `SyncProtocol.StatusWritten` | server/database/sqlite/sync.go:41-146 | the row and status that creation, mark, revert, delete request and registry update write, and that nothing else changes a row but a worker's final save |
| `SyncProtocol.FinalStatusInRuns` | server/sync/worker.go:69-108 | whatever happens in between, a worker that is through with an item saves IN_PROGRESS for a create item done, DELETED for a delete item done and FAILED for one not done |
| `SyncProtocol.TracedInRuns` | server/sync/scheduler.go:89-128 | in every interleaving rows and work items carry the URL the sync was created with, a sync is DELETE_PENDING or has a delete item only on request, DELETED only after a finished delete item, FAILED only after a finished item |
| `SyncProtocol.TickAdvances` | server/sync/scheduler.go:75-128 | every scheduler step brings its tick nearer to the end, whatever fails |
| `SyncProtocol.CanBeDeleted` | server/controller/sync.go:98-119 | a sync that is not DELETED can be brought to DELETED by a request, one tick and one worker |
| `SyncProtocol.AbandonedIsLost` | server/sync/scheduler.go:96-101 | a sync given up so is IN_PROGRESS, and in every later state not PENDING and without a create item |
| `SyncProtocol.LosingRun` | server/sync/scheduler.go:96-101 | a run that ends so |
| `PublicationProtocol.StepSendsOnce` | server/publication/scheduler.go:58-89 | a step keeps the invariant that nothing sent is left PENDING unmarked if and only if it does not give up marking a publication that was sent and is still PENDING |
| `PublicationProtocol.EnqueuedOnceInRuns` | server/publication/scheduler.go:58-89 | while no refused mark leaves a sent publication PENDING, none is enqueued twice in any interleaving |
| `PublicationProtocol.CanSendAgain` | server/publication/scheduler.go:58-89 | with the scheduler idle, room in the queue and nothing sent twice so far, the next tick can send a publication twice if and only if one that was sent is PENDING |
| `PublicationProtocol.ResendingRun` | server/publication/scheduler.go:77-86 | a run in which a refused mark sends a publication twice |
| `PublicationProtocol.NoPublicationLostInRuns` | server/publication/worker.go:42-60 | every publication sent is queued in order, with a worker, or handled |
| `PublicationProtocol.TickAdvances` | server/publication/scheduler.go:68-88 | every scheduler step brings its tick nearer to the end, whatever fails |
| `PublicationProtocol.StatusWritten` | server/database/sqlite/publication.go:55-147 | creation writes PENDING and the mark IN_PROGRESS; only these and a worker's save change a row |
| `PublicationProtocol.SavedStatusInRuns` | server/publication/worker.go:69-124 | a worker announces each CID of the resolved list once and saves COMPLETED if all announcements succeeded, the empty list included, and FAILED if one did not or the request did not resolve |
| `PublicationProtocol.CanComplete` | server/publication/worker.go:102-123 | a PENDING publication of one reference can be brought to COMPLETED |
| `PublicationProtocol.CompletedIsHonestInRuns` | server/publication/worker.go:62-124 | in every interleaving COMPLETED is only ever written for a list that a worker resolved the request to and announced in full |
| `PublicationProtocol.CompletedWasResolved` | server/publication/worker.go:127-151 | there is a step at which the request resolved to that list: its own references, or exactly the records present at that step whose content passes the filters its queries set |
| `PublicationProtocol.RoutingKeepsPublished` | server/routing/routing_local.go:314-372 | only Unpublish of a CID and a republish cycle that cannot pull it take it out of the record index |
| `PublicationProtocol.StaysPublished` | server/publication/worker.go:154-173 | a CID in the record index stays there until a routing step withdraws it, whatever the service does |
| `PublicationProtocol.CompletedArePublished` | server/publication/worker.go:154-173 | each CID of a COMPLETED publication was in the record index right after the last step that announced it for the publication, and still is unless a routing step since then withdrew it |
| `SearchFilters.BuildFilters` | server/types/search.go:6-89 | options apply in order, and a missing option is an error |
| `SearchFilters.QueryToFilters` | server/database/utils/utils.go:18-87 | the loop computes the options of all queries or stops at the first bad skill id |
| `SearchFilters.ConversionFails` | server/database/utils/utils.go:32-38 | conversion fails exactly when some skill-id query is not a 64-bit number |
| `SearchFilters.SplitColonJoins` | server/database/utils/utils.go:43-82 | the two halves of a locator or extension query rebuild it, the first without a colon |
| `Annotations.TrimBlank` | server/database/utils/utils.go:43-80 | a part trims to nothing exactly when it is blank, which is what leaves it out of the filters |
| `SearchFilters.LastQueryDecides` | server/types/search.go:19-89 | each filter ends up with what the last query about it says, and empty when none does |
| `SearchDatabase.Database.AddRecord` | server/database/sqlite/record.go:110-149 | adds the record and its child rows, or nothing when the CID is present |
| `SearchDatabase.Database.RemoveRecord` | server/database/sqlite/record.go:327-344 | removes the record row, and the child rows if the database cascades |
| `SearchDatabase.StepKeepsInv` | server/database/sqlite/record.go:110-149 | child rows say only what their record holds, and for present records all of it, cascade or not |
| `SearchDatabase.QueryMeans` | server/database/sqlite/record.go:152-238 | the query built clause by clause joins a table exactly when one of its filters is set and accepts a joined row exactly when it meets every filter |
| `SearchDatabase.SelectedMeans` | server/database/sqlite/record.go:152-238 | some row of the join passes exactly when the record's own content does |
| `SearchDatabase.SearchExactInRuns` | server/database/sqlite/record.go:242-323 | after any additions and removals and in whatever order rows come, an unpaged search returns, each once, exactly the present CIDs whose content passes, with one single child row per filtered table meeting both its filters |
| `SearchDatabase.CidsOfRecordsInRuns` | server/database/sqlite/record.go:152-323 | with GetRecords and GetRecordCIDs each in its own row order: both return only CIDs that pass, none twice, and equally many, and without paging the same ones |
| `SearchDatabase.AnyFirstPage` | server/database/sqlite/record.go:167-173 | without ORDER BY any selected row may be the whole first page of one |
| `SearchDatabase.QueriesAnswered` | server/database/utils/utils.go:18-87 | a query list is answered by the CIDs that pass the filters its last queries set |
| `CachedStore.Store.Push` | server/store/cache/cache.go:37-52 | source first, then the cache; a cache failure is not reported |
| `CachedStore.Store.Pull` | server/store/cache/cache.go:55-80 | cache first, then the source, which fills the cache |
| `CachedStore.Store.Lookup` | server/store/cache/cache.go:83-108 | the same for metadata, under its own key |
| `CachedStore.Store.Delete` | server/store/cache/cache.go:111-120 | both cached copies, then the source |
| `CachedStore.CacheIsTransparent` | server/store/cache/cache.go:37-120 | for every sequence of calls, with cache reads and writes and source writes failing arbitrarily, the cached store answers as its source alone would, records compared by CID |
| `CachedStore.CallsFillCache` | server/store/cache/cache.go:123-140 | after a call that succeeds with its cache write, the record or metadata of that CID is found in the cache |
| `CachedStore.ReadAgrees` | server/store/cache/cache.go:142-157 | a read agrees with the source unless its name cleans to another CID's key and hits there |
| `CachedStore.DeleteCoherent` | server/store/cache/cache.go:197-210 | a Delete keeps the cache within the source exactly when a removed record's cached copies are gone too |
| `CachedStore.StrayNameDiffers` | server/store/cache/cache.go:142-157 | such a name finds in the cache what the source does not have |
| `CachedStore.StaleCopyDiffers` | server/store/cache/cache.go:197-210 | a copy that outlives its record is still handed out |
| `LocalFs.Store.Push` | server/store/localfs/localfs.go:52-129 | the files after each point at which a Push may stop, and success exactly when it completes or finds the record |
| `LocalFs.Store.Delete` | server/store/localfs/localfs.go:177-202 | the files after both removals or only the first, and success exactly when both files were there |
| `LocalFs.InvInRuns` | server/store/localfs/localfs.go:52-129 | with Pushes that stop anywhere and whole Deletes, each metadata file has a contents file that hashes to its name |
| `LocalFs.DeleteKeepsInv` | server/store/localfs/localfs.go:177-202 | a Delete keeps that exactly when it is not cut short on a record with metadata |
| `LocalFs.PushedCanBePulled` | server/store/localfs/localfs.go:153-174 | after a successful Push and until deletion, Pull gives back the bytes pushed |
| `LocalFs.PartlyPushed` | server/store/localfs/localfs.go:79-124 | a Push that stops after the rename leaves a record that can be pulled and not looked up; before it, neither changes |
| `LocalFs.DeletedStaysGone` | server/store/localfs/localfs.go:177-202 | a whole Delete leaves neither file, and neither comes back until the record is pushed again |
| `LocalFs.RetryRepairs` | server/store/localfs/localfs.go:66-129 | whatever broken Pushes left, a completed one puts the record in place and touches no other |
| `LocalFs.CutDeleteSticks` | server/store/localfs/localfs.go:177-202 | a Delete cut short leaves metadata without contents exactly when the metadata was whole |
| `LocalFs.StuckForever` | server/store/localfs/localfs.go:66-72 | from then on every Push of that record reports success, no Pull finds it and no Delete helps |
| `CidCodec.DecodeEncodeBase32` | api/core/v1/cid.go:40-43 | base32 decoding undoes encoding for all bytes, and encoders write canonical text |
| `CidCodec.EncodeDecodeBase32` | api/core/v1/cid.go:48-54 | encoding undoes decoding exactly for canonical texts |
| `CidCodec.EncodeDecodeHex` | api/core/v1/cid.go:25-32 | re-encoding decoded hex gives its lower case |
| `CidCodec.Base32Text` | api/core/v1/cid.go:40-43 | base32 character by character: the letter of bits 5i to 5i + 4, computed from the bytes |
| `CidCodec.HexText` | api/core/v1/cid.go:69-70 | hex digit by digit: high and low half of each byte |
| `CidCodec.DecodeMultihashBack` | api/core/v1/cid.go:34-38 | a multihash decodes to its code and digest |
| `CidCodec.EncodeMultihashBack` | api/core/v1/cid.go:56-63 | a decoded multihash encodes to the same bytes |
| `CidCodec.DecodeCidString` | api/core/v1/cid.go:40-54 | a CID is read back from its string |
| `CidCodec.DigestCidText` | api/core/v1/cid.go:34-71 | the CID of a sha256 digest is base32 of the bytes 01 01 12, length and digest, and converts back to that digest |
| `CidCodec.OtherHashesRefused` | api/core/v1/cid.go:20-23 | exactly sha256 digests with valid hex, and exactly CIDs of hash function 0x12, convert |
| `CidCodec.DigestRoundTrip` | api/core/v1/cid.go:19-71 | digest to CID to digest gives the digest in lower case, so the identity exactly on lower-case hex |
| `CidCodec.CidRoundTrip` | api/core/v1/cid.go:19-71 | CID to digest to CID is the identity exactly on canonical CIDs with codec 1 |
| `CidCodec.AnnouncedCidBack` | server/routing/handler.go:108-121 | rebuilding a CID from its announced multihash gives it back exactly when it is canonical with codec 1 |
| `CidCodec.DigestCidsAreCanonical` | server/routing/handler.go:108-121 | every CID made from a digest is announced under its own name |
| `ZotConfig.ConfigFile.AddRegistry` | server/sync/worker.go:240-311 | when it succeeds, and that the file then lists the URL and otherwise stays as it was |
| `ZotConfig.ConfigFile.RemoveRegistry` | server/sync/worker.go:314-378 | when it succeeds, and that the file then lacks every entry with the URL and otherwise stays as it was |
| `ZotConfig.NormalizeStable` | server/sync/worker.go:381-397 | a stored URL has a scheme, and normalizing it again changes nothing exactly when it parses |
| `ZotConfig.NormalizedText` | server/sync/worker.go:381-397 | a URL without a scheme is stored after http://, one with a scheme as it is if it parses, an empty one refused |
| `ZotConfig.NewEntry` | server/sync/worker.go:286-300 | the fields of a new entry, which comes last, and that sync is enabled and the rest unchanged |
| `ZotConfig.WithoutKeepsOrder` | server/sync/worker.go:343-360 | removal keeps exactly the entries that do not list the URL, unchanged and in order |
| `ZotConfig.AddTwice` | server/sync/worker.go:276-284 | adding is idempotent |
| `ZotConfig.AddThenRemove` | server/sync/worker.go:240-378 | adding a new URL and removing it restores the registry list, and of the rest only the enable flag is new |
| `ZotConfig.ListedWithout` | server/sync/worker.go:343-360 | after a removal a URL is listed if and only if some entry listed it and not the removed one |
| `ZotConfig.RemovalUnlistsOther` | server/sync/worker.go:314-378 | removing one URL unlists another exactly when every entry that lists the other lists both |
| `ZotConfig.SharedEntryRemoved` | server/sync/worker.go:276-360 | an entry with two URLs: adding the second and removing the first leaves the second unlisted |
| `ZotConfig.SyncsShareEntry` | server/sync/worker.go:276-284 | removing a URL added for two syncs loses it for both |
| `ZotConfig.EntriesInRuns` | server/sync/worker.go:276-367 | through any edits a URL keeps at most one entry; with one URL per entry it is listed exactly when the last edit that names it added it |
| `Annotations.ExtractManifestAnnotations` | server/store/oci/annotations.go:17-125 | the manifest holds each field that has a value and each custom pair under its own key, and nothing else |
| `Annotations.ManifestUnique` | server/store/oci/annotations.go:117-122 | so a record determines its manifest, in whatever order its custom pairs are visited |
| `Annotations.ParseManifestAnnotations` | server/store/oci/annotations.go:130-226 | custom pairs as they are, and otherwise what is shown of each stored field |
| `Annotations.ReadBack` | server/store/oci/annotations.go:17-226 | reading back what was written returns every custom pair, custom keys overriding core ones, otherwise the record's own field, and nothing else |
| `Annotations.ParseCommaSeparated` | server/store/oci/annotations.go:229-249 | the loop splits, trims and drops empty parts |
| `Annotations.TrimSplits` | server/store/oci/annotations.go:237-241 | trimming takes off blanks at both ends and nothing else |
| `Annotations.ParseJoinedNames` | server/store/oci/annotations.go:229-249 | a list comes back from its comma-joined form exactly when its members are comma-free, trimmed and not empty |
| `Annotations.NamesReadBack` | server/store/oci/annotations.go:170-194 | a record's lists read back whole exactly then, and with the right count |
| `Annotations.ItoaBack` | server/store/oci/annotations.go:171-194 | the count text reads as the number counted |
| `Annotations.ParseItoa` | server/database/utils/utils.go:32-38 | a skill id is read as the number it is written for exactly below 2^64 |
| `Annotations.KeyTexts` | server/store/oci/constants.go:10-65 | the keys of type, identity and lifecycle fields as stored |
| `Annotations.ListKeyTexts` | server/store/oci/constants.go:67-78 | the keys of lists, signature and previous record as stored |
| `Annotations.CountKeyTexts` | server/store/oci/constants.go:47-82 | the keys of counts and of custom pairs |

## Left out

- Networking: libp2p, the DHT, peer RPC and gRPC. An announcement is a step that may happen at any time; the provider store and the notification channel's capacity are not modelled.
- Serialization: JSON, protobuf and canonical record bytes are library code. What a datastore value or a file decodes to stands for its bytes, and bytes of one kind are taken not to decode as another. The exception is the pair of label metadata and counters, whose JSON objects decode as each other.
- SHA-256 is an abstract function; where a result is about equal bytes rather than equal CIDs it assumes the hash injective.
- Records whose labels path cleaning would change are outside the run theorems, by the condition of PublishKeepsIndex; so are CIDs that are not single clean path components.
- CIDs: version 0, multibases other than base32, the nine-byte limit of varints, and line breaks inside encoded text, which the libraries skip.
- The adapters that read fields out of the versions of the record schema; a record's labels, search content and annotation fields are given.
- Datastore errors in routing other than a failed save of the counters, and errors on single query results.
- Lifetimes of namespace keys that do not parse as label keys: any cleanup deletes them.
- Interleavings inside one routing operation other than Publish and Unpublish, and inside the commit of a batch: each is one step. The run theorems of RoutingRuns take Publish and Unpublish as one step too; RoutingConcurrency does not.
- 64-bit overflow of a label counter.
- Sync monitoring, credential negotiation and the outcome of zot calls inside the sync protocol: a worker's work succeeds or fails arbitrarily. Unknown work item types do not occur.
- Context cancellation, timeouts and shutdown, beyond a dispatch that may fail at any time.
- Row timestamps, paging of sync and publication lists, and the row deletions no service calls.
- SQL LIKE is an abstract predicate, and rows come in any order. Loading of child rows into search results is not modelled.
- ExtractManifestAnnotations: the core fields are collected field by field from a function of the record instead of being assigned one after the other; the keys are proved distinct, so the order of those assignments cannot show. The custom pairs are written by a loop.
- ParseManifestAnnotations: the same for the fields that are read back.
- AddRegistry: a write that fails is taken to leave the file as it was, and two workers editing the file at once are not modelled.
- LocalFs.Store.Push: names are plain file names; directories and path cleaning of requested names are not modelled.
- The OCI store's push, lookup and delete, signing, authorization, the CLI, the SDKs and configuration loading.
- ValidateLabelKey and FormatLabelKey.
