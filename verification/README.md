# Verified model of the engine's state-keeping code

This project models the parts of the repository that keep state or transform text, and proves what they
promise. Each module stands for one component:

| module | models |
|---|---|
| ProviderHealth, ProviderStore | the provider reliability store: verdicts per title, a running total per provider, one record per identity scope |
| EngineJobs | the job store with its event queues, as interleaved steps |
| ReleaseManifest, ReleaseMerge, ReleaseBucket, ReleaseOutcome | publishing installers: merging the manifest, uploading, deleting and pruning |
| StalkerWalk | the paged list walks of a Stalker portal, concurrent and serial |
| Catalog, CatalogQuery, CatalogPage, CatalogAnswer, CatalogSearch | the catalogue tables: replacing, paging, searching, exporting |
| M3u, PlaylistCatalog | the playlist parser, its groups, and completing a list of categories |
| Pairing, IdleWatch | LAN pairing with its tickets, and the watcher that pauses and cleans a swarm |
| CivilDate, IsoTime | calendar days and timestamps |
| MpdRewrite, MpdEdits, SessionAddress, ProxySessions | manifest rewriting, what becomes of a rewritten address, and the session table of the media proxy |
| HexCodec, BlockCipher, Aes, Passphrase | the crypto bridge and OpenSSL-style passphrase encryption in two languages |
| Text, Listings, Sums, Wrappers | strings, sorted listings, sums over sets, results |

Code that updates state is a class or a loop, proved against a specification function (usually the step
function of a state machine, or a plain recursive definition). The theorems are then about those functions,
for all inputs, all histories and all interleavings.

What the code cannot see is a parameter: the hash function, the block and authenticated ciphers, base64,
SQLite's `LIKE`, the attribute regular expression, and the functions that read a platform, an architecture,
a version or a version's rank off a file name. Only the law that is needed is required of them
(fixed digest length, decryption undoes encryption, decoding undoes encoding). Random tokens are
parameters that are fresh; clocks are parameters. Each step of a state machine holds its lock once.

Where the code and what is said of it disagree, the model follows the code, and these are proved:

- A provider's running total is not the sum of its titles' nets (`RunningTotalIsNotTheSum`); it is bounded by
  the sum of what is above zero, and it is the sum at every point of a run exactly when no verdict takes a title
  up from below zero, or a sum of nets below zero or out of 32 bits (`RunIsExactIff`).
- No later state has an event queue for a job exactly when it has none now and is not an extraction whose task
  still runs (`QueueIsOverIff`); so a job that was never cancelled has none once it is taken
  (`TakenJobHasNoQueue`). A cancelled extraction may push after that (`CancelledJobMayLeaveQueue`), and what it
  pushed then is never cleared, only drained (`LeftQueueStays`).
- Restoring devices leaves the two indexes inverse exactly when the records name each device and each token
  coherently (`RestoreInverseIff`); two devices with one token do not (`SharedTokenBreaksInverse`).
- A sibling architecture whose file name has no version takes the version of the new upload
  (`SiblingKeepsVersionIff`, `UnversionedSiblingTakesVersion`), and its copy in an old version directory goes with that directory (`DirectoriesKept`).
- A walk without a total returns the whole list exactly when nothing in it has an id, or its first page holds a
  row with an id, no later page comes up short before another such row, and none lies behind page 2000
  (`UnsizedWalkCompleteIff`); with the total only the first page and the limit matter (`SizedWalkCompleteIff`).
  `RowsAreMissed` has a list that is cut short and one of which nothing is returned.
- Search counts are conserved exactly under a condition on the categories hit (`SearchConservesIff`); a category
  called `all` beside another breaks them (`CategoryCalledAll`).
- Completing categories twice repeats the bucket for streams without one (`CompletingTwiceIff`, `BucketTwice`).
- Through the player and the session's handler a `BaseURL` under the session base keeps its address exactly when
  what follows the base has no scheme, no leading slash and no query, its dot segments never climb out of the base
  (nor past the authority, where the base is a bare scheme), and neither a leading slash nor two dots are left once they are gone (`AddressIsKeptIff`); lost are, for example,
  `//c`, `c?t=1`, `c..d` and `../c` (`DoubledSlashIsLost`, `QueryIsLost`, `TwoDotsAreRefused`,
  `ParentDirectoryIsLost`). One that merely starts like the base is emptied, and then keeps its address exactly
  when it names the base's directory (`SiblingDirectoryIsLost`, `DirectoryIsNamedIff`).
- A passphrase salt of other than eight bytes does not survive the envelope (`EnvelopeRoundTripIff`,
  `ShortSaltIsLost`). The JavaScript key derivation ends exactly when passphrase and salt together decode
  (`DerivationEndsIff`): the salt `zz` makes it run for ever, while `+1`, which is not hexadecimal either, derives
  (`ZzNeverDerives`).

## Model

| member | source | states |
|---|---|---|
| ProviderHealth.MemoryKeyNamesProvider | crates/engine/src/provider_health.rs:164-191 | the key built for a title leads back to the provider bucket, whatever colons the provider id holds; only a blank id has none |
| ProviderHealth.MemoryKeyIs | crates/engine/src/provider_health.rs:177-191 | the keys of all six domains, written out |
| ProviderHealth.ProviderIs | crates/engine/src/provider_health.rs:164-175 | a provider id is trimmed and loses a last `:sub` or `:dub`, in any case |
| ProviderHealth.KeyNames | crates/engine/src/provider_health.rs:317-328 | which part of any key names the provider, by its colons; keys of fewer parts name none |
| ProviderHealth.VerdictKeepsBound | crates/engine/src/provider_health.rs:257-310 | one verdict keeps every running total between 0 and the sum over the provider's titles of max(0, net) |
| ProviderHealth.RunKeepsBound | crates/engine/src/provider_health.rs:335-360 | the same after any run of verdicts and clears |
| ProviderHealth.RunIsExactIff | crates/engine/src/provider_health.rs:335-360 | over every run: each provider's total is the sum of its titles' nets at every point exactly when no verdict takes a title up from below zero, or a sum of nets below zero or beyond 32 bits |
| ProviderHealth.CalmRunIsExact | crates/engine/src/provider_health.rs:335-360 | in particular on runs that never take a title's net below zero or a sum beyond 32 bits |
| ProviderHealth.RunningTotalIsNotTheSum | crates/engine/src/provider_health.rs:335-384 | in general it does not: a run that ends with total 4 and nets summing to 6 |
| ProviderHealth.VerdictsFollowHistory | crates/engine/src/provider_health.rs:257-286 | a title's verdicts are the last server event and the sticky stream win since the last clear |
| ProviderHealth.EventWrites | crates/engine/src/provider_health.rs:51-54 | what each of the five events writes, in numbers: 2 for a success, -2 for a failure, except that a failed stream leaves a stream verdict of 2 |
| ProviderHealth.DeltaIsShown | crates/engine/src/provider_health.rs:288-305 | the delta stored with a title is by how much its net moved, or what the event says where it did not move |
| ProviderHealth.FailuresNeverHelp | crates/engine/src/provider_health.rs:237-310 | no failure raises a title's net or a provider's total, and no success lowers them |
| ProviderStore.KeyTextsDiffer | crates/engine/src/provider_health.rs:8-36 | the legacy key and the keys of all scopes, written out, are different texts |
| ProviderStore.ScopeNames | crates/engine/src/provider_health.rs:23-32 | a scope is its text without the space around it, and the local default where nothing is left |
| ProviderStore.LoadReads | crates/engine/src/provider_health.rs:87-110 | which entries of a record are read into which map, and as what number |
| ProviderStore.RebuildTotals | crates/engine/src/provider_health.rs:362-384 | the rebuild loop computes, per provider, the wrapped sum of its titles' nets, positive ones only |
| ProviderStore.RebuildIsBounded | crates/engine/src/provider_health.rs:362-384 | the one-shot rebuild of a loaded record of at most 2^29 titles meets the same bound |
| ProviderStore.LoadAfterSave | crates/engine/src/provider_health.rs:87-125 | loading what was persisted gives the state back, for every reachable state |
| ProviderStore.ReloadIsIdentityIff | crates/engine/src/provider_health.rs:386-414 | a stored record survives another save and load exactly when no non-zero entry wraps to zero |
| ProviderStore.WideVerdictIsLost | crates/engine/src/provider_health.rs:386-414 | a stored verdict of 2^32 does not |
| ProviderStore.ScopesAreIsolated | crates/engine/src/provider_health.rs:34-162 | over any sequence of records, clears and identity switches, each scope's state is the fold of its own events alone, on the legacy scores for at most one scope |
| ProviderStore.OpsDo | crates/engine/src/provider_health.rs:38-162 | what each operation does to the active scope and to every other one |
| ProviderStore.EveryScopeStaysBounded | crates/engine/src/provider_health.rs:137-360 | over any such sequence every total of every scope stays within the bound, if it was in what was stored |
| ProviderStore.SwitchBackRestores | crates/engine/src/provider_health.rs:150-162 | switching away and back restores every map |
| ProviderStore.Store.constructor | crates/engine/src/provider_health.rs:75-80 | a new store over any storage describes the scopes stored there |
| ProviderStore.Store.EnsureLoaded | crates/engine/src/provider_health.rs:38-114 | loading claims the scope, adopting the legacy scores once, and keeps map plus storage equal to one map per scope |
| ProviderStore.Store.Persist | crates/engine/src/provider_health.rs:116-125 | persisting writes the live maps as the scope's record |
| ProviderStore.Store.ClearAll | crates/engine/src/provider_health.rs:137-148 | clearing is the model's clear step |
| ProviderStore.Store.SetIdentityScope | crates/engine/src/provider_health.rs:150-162 | switching is the model's switch step |
| ProviderStore.Store.SetVerdict | crates/engine/src/provider_health.rs:237-310 | recording is the model's record step and returns the title's net |
| ProviderStore.Store.ApplyProviderDelta | crates/engine/src/provider_health.rs:344-360 | the running total moves by the credited difference, floored at zero, in 32 bits |
| ProviderStore.Store.Perform | crates/engine/src/provider_health.rs:137-310 | a whole sequence of operations on the store is that sequence on the model |
| EngineJobs.StoreFollowsHistory | crates/ffi/src/engine_jobs.rs:54-162 | in every interleaving the maps hold what the history says: ids in `tokens` and `kinds` are the pending jobs, and a result is delivered at most once, namely the first ending |
| EngineJobs.EndingIsFinal | crates/ffi/src/engine_jobs.rs:54-82 | no later event changes how a job ended |
| EngineJobs.EveryStateIsConsistent | crates/ffi/src/engine_jobs.rs:54-162 | `tokens`, the keys of `kinds` and the pending outcomes coincide in every state |
| EngineJobs.CancelTouchesOnlyItsKind | crates/ffi/src/engine_jobs.rs:104-162 | cancelling kind k changes only jobs submitted with k, and cancelling all leaves jobs of kind 12 (live sports) as they are; a pending job it does cover is done with the cancelled result |
| EngineJobs.CancelEndsByKind | crates/ffi/src/engine_jobs.rs:104-162 | told by the kind a job was submitted with: cancelling all ends exactly the pending jobs of other kinds than 12, cancelling k exactly those of kind k |
| EngineJobs.LiveSportsStaysPending | crates/ffi/src/engine_jobs.rs:104-133 | in every run a job of kind 12 with no finish and no cancellation of kind 12 is pending |
| EngineJobs.QueueIsOverIff | crates/engine/src/extract.rs:581-605 | for every run and every job submitted in it: no later state has a queue for it exactly when it has none now and is not an extraction whose task still runs |
| EngineJobs.TakenJobHasNoQueue | crates/ffi/src/engine_jobs.rs:88-102 | so a job that was never cancelled has no event queue in any state after it is taken |
| EngineJobs.LeftQueueStays | crates/engine/src/extract_events.rs:14-52 | a queue found after its job was taken is there in every later state, and only draining it removes rows |
| EngineJobs.CancelledJobMayLeaveQueue | crates/engine/src/extract_events.rs:14-52 | a run in which an extraction is cancelled, taken, cleared, and then pushed to |
| EngineJobs.RowsArriveOnce | crates/engine/src/extract_events.rs:14-52 | in every run, until a job's result is taken, the rows its polls were handed and those still waiting are the rows accepted, each once and in order; accepted are rows that start with a brace while fewer than 48 wait |
| EngineJobs.JobStore.SubmitJob | crates/ffi/src/engine_jobs.rs:54-66 | submitting is the submit step and returns the next id |
| EngineJobs.JobStore.Complete | crates/ffi/src/engine_jobs.rs:67-80 | the completion block is the finish step |
| EngineJobs.JobStore.TakeResult | crates/ffi/src/engine_jobs.rs:88-102 | taking delivers a finished result, removes it and then its queue |
| EngineJobs.JobStore.CancelByKind | crates/ffi/src/engine_jobs.rs:142-162 | the loop over ids of one kind is the cancel step |
| EngineJobs.JobStore.CancelEverything | crates/ffi/src/engine_jobs.rs:104-133 | the loop over all but live-sports ids is the cancel-all step |
| EngineJobs.JobStore.PushRow | crates/engine/src/extract_events.rs:14-29 | pushing appends an object row while fewer than 48 are queued |
| EngineJobs.JobStore.TakeRows | crates/engine/src/extract_events.rs:31-44 | taking drains the queue in order |
| ReleaseManifest.NewestIsGreatest | scripts/upload_release_to_r2.py:322-326 | the chosen version is one of those given and none ranks above it, number by number |
| ReleaseManifest.CleanIs | scripts/upload_release_to_r2.py:350-354 | a version is its text without any leading v |
| ReleaseManifest.BuildArches | scripts/upload_release_to_r2.py:329-375 | the loop fills the map that the recursive definition describes |
| ReleaseManifest.LastNameWins | scripts/upload_release_to_r2.py:345-371 | each architecture has the last file name that counts for it, with its version and date; no other architecture appears |
| ReleaseManifest.MergeAssetsByArch | scripts/upload_release_to_r2.py:663-678 | the two loops keep one name an architecture |
| ReleaseMerge.PlatformsFromFilenames | scripts/upload_release_to_r2.py:430-462 | the grouping loops build one entry a platform |
| ReleaseMerge.UploadIsWritten | scripts/upload_release_to_r2.py:430-462 | every uploaded platform gets a well-formed entry with an architecture for each of its files: the last such file, versioned by its name or else by the release |
| ReleaseMerge.MergeDownloaderCodes | scripts/upload_release_to_r2.py:525-565 | the loop over merged architectures computes the codes of the definition |
| ReleaseMerge.CodesFollowFiles | scripts/upload_release_to_r2.py:543-560 | a Downloader code is fresh, or it was there and its architecture was not uploaded and lists the same file; nothing else is dropped |
| ReleaseMerge.MergedArchesAre | scripts/upload_release_to_r2.py:755-772 | incoming files win per architecture with the upload's date; siblings keep file and date |
| ReleaseMerge.SiblingKeepsVersionIff | scripts/upload_release_to_r2.py:350-354 | a sibling keeps its version exactly when its name embeds one or the upload has the same |
| ReleaseMerge.UnversionedSiblingTakesVersion | scripts/upload_release_to_r2.py:350-354 | an upload after which an older, unversioned file is listed under the new version |
| ReleaseMerge.MergedIsWritten | scripts/upload_release_to_r2.py:773-789 | the platform's version stays the newest of its architectures' versions, its date is the upload's, and the entry is well-formed |
| ReleaseMerge.WrittenIsNormal | scripts/upload_release_to_r2.py:608-660 | normalising an entry the script wrote changes nothing |
| ReleaseMerge.MergePlatformManifest | scripts/upload_release_to_r2.py:681-815 | the loops over stored and incoming platforms compute the merged manifest |
| ReleaseMerge.MergeKeepsAndReplaces | scripts/upload_release_to_r2.py:690-695 | platforms not uploaded are untouched, uploaded ones merged, and no others appear |
| ReleaseBucket.EveryMomentIsGood | scripts/upload_release_to_r2.py:1271-1467 | after every single request of a release, broken off anywhere, each listed file is under latest/, under its version directory too when names embed the release version, and each code belongs to the listed file it was given for |
| ReleaseBucket.HistoriesAreGood | scripts/upload_release_to_r2.py:1125-1467 | the same over every history of releases and code patches |
| ReleaseBucket.EverythingListedIsThere | scripts/upload_release_to_r2.py:1125-1467 | so in every state reached from an empty bucket, what the manifest lists is there and each code belongs to its file |
| ReleaseBucket.ManifestComesLast | scripts/upload_release_to_r2.py:1271-1366 | when the manifest is put, all that it lists is already there |
| ReleaseBucket.LatestIsExact | scripts/upload_release_to_r2.py:828-854 | after a full run latest/ holds for an uploaded platform exactly the listed files, and other platforms' files are untouched |
| ReleaseBucket.DirectoriesKept | scripts/upload_release_to_r2.py:1419-1467 | pruning keeps, whole, exactly the newest and the referenced version directories |
| ReleaseBucket.EveryInstallerIsUploaded | scripts/upload_release_to_r2.py:1256-1293 | the names put under latest/ are, in the directory's order, exactly those that end in .dmg, .exe or .apk behind something, in any case, or in .AppImage; after the uploads each is there and under the version |
| ReleaseOutcome.ReleaseLeaves | scripts/upload_release_to_r2.py:1256-1467 | a complete run leaves exactly what was there and what it put, written out, less the superseded installers of its platforms and the version directories that are neither among the newest nor still serving |
| ReleaseOutcome.NothingToList | scripts/upload_release_to_r2.py:1297-1303 | without a file of a known platform the run stops after the uploads |
| ReleaseOutcome.CodesGoToAndroidTv | scripts/upload_release_to_r2.py:1305-1338 | the codes of a release go to the uploaded Android TV architectures and nowhere else |
| ReleaseOutcome.PatchLeaves | scripts/upload_release_to_r2.py:1125-1231 | a patch sets the codes of listed Android TV architectures, changes nothing else, is refused exactly when there is none, and puts the version's own manifest only where it is stored |
| ReleaseBucket.PatchIsGood | scripts/upload_release_to_r2.py:1168-1213 | patching codes keeps all of this, broken off after either of its two requests |
| ReleaseBucket.StaleLatestKeys | scripts/upload_release_to_r2.py:842-854 | the loop finds exactly the unlisted files of replaced platforms |
| ReleaseBucket.NewestDirs | scripts/upload_release_to_r2.py:1422-1437 | the window holds as many directories as asked for, none of them older than one left out |
| ReleaseBucket.Publisher.Publish | scripts/upload_release_to_r2.py:1248-1467 | the script's requests are a plan: uploads, manifest, notes, stale files, outdated versions, in that order |
| ReleaseBucket.Publisher.PatchDownloaderCodes | scripts/upload_release_to_r2.py:1144-1213 | the patch replaces the latest manifest and then the version's own one if that is stored and takes a code, or fails |
| StalkerWalk.ParallelWalkTail | crates/iptv/src/stalker_client.rs:701-756 | for every completion order and every set of failing pages: each page is requested once, at most six are out, the walk ends and returns the successful pages in page order, or the cancellation, and an answer is only awaited with six requests out or all of them made |
| StalkerWalk.FailedPageIsAGap | crates/iptv/src/stalker_client.rs:743-752 | a page that fails leaves a gap, and what lies on either side is kept |
| StalkerWalk.SequentialWalkTail | crates/iptv/src/stalker_client.rs:760-790 | the serial walk returns the pages up to the first that fails or comes up short, at most 2000 |
| StalkerWalk.FetchOrderedList | crates/iptv/src/stalker_client.rs:622-657 | the first page decides between the walks and sizes them |
| StalkerWalk.RowParses | crates/iptv/src/stalker_client.rs:1122-1143 | a row's id is its `id`, or its `ch_id` where that is empty; a row without either is left out |
| StalkerWalk.PageSizeIs | crates/iptv/src/stalker_client.rs:637-690 | the reported page size counts by its low 32 bits, and 14 stands for none |
| StalkerWalk.SizedWalkReturns | crates/iptv/src/stalker_client.rs:633-656 | a portal serving a list with its total: the first 2000 pages' rows with an id, unless the first page parses to nothing |
| StalkerWalk.UnsizedWalkCompleteIff | crates/iptv/src/stalker_client.rs:633-646 | without a total the whole list is returned exactly when it has no row with an id, or its first page has one, no later page is short before another one, and none lies behind page 2000 |
| StalkerWalk.SizedWalkCompleteIff | crates/iptv/src/stalker_client.rs:633-656 | with the total, exactly when it has no row with an id, or its first page has one and none lies behind page 2000 |
| StalkerWalk.RowsAreMissed | crates/iptv/src/stalker_client.rs:633-646 | a list that the serial walk cuts short, and one that either walk returns nothing of |
| StalkerWalk.WalksAgree | crates/iptv/src/stalker_client.rs:622-790 | when every row parses both walks return the list up to the page limit, all of it exactly when it fits |
| Catalog.TableHasLast | crates/iptv/src/catalog_db.rs:217-244 | after the inserts an id has the row of its last record, with that record's position |
| Catalog.StreamFields | crates/iptv/src/catalog_db.rs:111-129 | a stream's id and category are the trimmed text of the first field that is there, in the order of the source, with their defaults |
| Catalog.NameFields | crates/iptv/src/catalog_db.rs:131-210 | so are a stream's name and a category's id and name |
| Catalog.SortsAreUnique | crates/iptv/src/catalog_db.rs:225-243 | positions are unique in a table, replaced duplicates included |
| Catalog.InsertCategories | crates/iptv/src/catalog_db.rs:186-215 | plain inserts fail exactly on a repeated non-empty trimmed id |
| Catalog.InsertStreams | crates/iptv/src/catalog_db.rs:217-244 | the insert-or-replace loop builds the table of the definition |
| Catalog.CatalogDb.ReplaceShelf | crates/iptv/src/catalog_db.rs:152-249 | all or nothing: it fails exactly on duplicate category ids and then changes nothing; otherwise only this portal and section change, and every shelf stays one that a replacement made |
| CatalogQuery.OrderingIsUnique | crates/iptv/src/catalog_db.rs:565-569 | with unique positions each of the three orders leaves a single listing |
| CatalogQuery.TableLists | crates/iptv/src/catalog_db.rs:251-273 | in playlist order a table lists exactly the kept records |
| CatalogQuery.QueryPage | crates/iptv/src/catalog_db.rs:525-594 | a page is the LIMIT/OFFSET part of an ordered listing of the rows that match, with their number |
| CatalogQuery.PagesListEachOnce | crates/iptv/src/catalog_db.rs:431-467 | pages 1 to the last list every matching stream once, in order, and more is announced exactly before the end |
| CatalogPage.Page | crates/iptv/src/catalog_db.rs:321-484 | a request is answered by favourites, by a search or by a category page, with sizes clamped as in the code |
| CatalogPage.RequestPagesListEachOnce | crates/iptv/src/catalog_db.rs:432-449 | the pages of a request list each matching stream exactly once, by the text of the request in ascending or descending name order, equal names by position, or by position alone, and announce more exactly before the end |
| CatalogAnswer.FavouritesAnswer | crates/iptv/src/catalog_db.rs:332-434 | a request with ids, or for an id with two leading underscores, is answered by the stored ones among the ids that are not blank, in their order, with its page number, size and counts written out |
| CatalogAnswer.ListingAnswer | crates/iptv/src/catalog_db.rs:366-482 | any other request: page number, size between 1 and 128 with 48 by default, the category chosen, the categories hit in ascending order and only these listed |
| CatalogAnswer.ListingRows | crates/iptv/src/catalog_db.rs:525-594 | its rows are one page of the list of all rows of the category that the query hits, ordered by the text of the request; total and `has_more` are that list's |
| CatalogPage.HitCategories | crates/iptv/src/catalog_db.rs:490-523 | the distinct non-empty categories of the rows hit, ascending |
| CatalogSearch.PageTotalIsShown | crates/iptv/src/catalog_db.rs:366-465 | the total shown for a hit category: none for a reserved id, everything for `all`, else that category's hits |
| CatalogSearch.ShownTotalsAddUpIff | crates/iptv/src/catalog_db.rs:366-563 | whichever pages are asked for, the totals shown with the hit categories add up to the search's own exactly under a condition on those categories |
| CatalogSearch.PagedTotals | crates/iptv/src/catalog_db.rs:366-465 | what the pages of the listed hit categories show together |
| CatalogSearch.SearchConservesIff | crates/iptv/src/catalog_db.rs:435-465 | that sum is the search's total exactly under a condition on the categories hit |
| CatalogSearch.CategoryCalledAll | crates/iptv/src/catalog_db.rs:541 | two rows, one of a category called `all`, are counted twice |
| CatalogSearch.OrdinarySearchConserves | crates/iptv/src/catalog_db.rs:490-563 | with ordinary categories the totals add up, and the listed categories are exactly those with a hit |
| CatalogSearch.ReservedHitPagesEmpty | crates/iptv/src/catalog_db.rs:366-405 | a category id starting with two underscores pages as empty |
| CatalogSearch.ExportShelf | crates/iptv/src/catalog_db.rs:625-662 | an export is both tables in playlist order, and misses exactly where there is no shelf |
| CatalogSearch.ExportIsKept | crates/iptv/src/catalog_db.rs:217-244 | exporting what was put in gives it back less the records without an id, the last duplicate at its own place |
| CatalogSearch.ReplaceByExportChangesNothing | crates/iptv/src/catalog_db.rs:625-662 | replacing any shelf of the database with its own export is accepted and changes no answer to any request |
| M3u.MachineMeetsLines | crates/iptv/src/m3u.rs:135-199 | the line machine emits each accepted address with what was said since the accepted address before it |
| M3u.MachineFindsEpg | crates/iptv/src/m3u.rs:140-150 | the guide address is that of the first header that has one |
| M3u.ParseWithHeader | crates/iptv/src/m3u.rs:117-208 | the parser's loop and its three errors meet the declarative reading of the text |
| M3u.InfoNamesChannel | crates/iptv/src/m3u.rs:152-171 | of `#EXTINF` a comma and n, a line end and an address, the channel is named n trimmed, else by the attributes of what stands before the first comma, else `Unknown`; the other fields are those attributes |
| M3u.InfoWithoutName | crates/iptv/src/m3u.rs:152-171 | without a comma everything is attribute text and gives the name too |
| M3u.GroupReplacesGroup | crates/iptv/src/m3u.rs:174-177 | a group directive in between replaces the group and nothing else |
| M3u.HeaderGivesGuide | crates/iptv/src/m3u.rs:140-151 | a header's guide address is its `url-tvg`, else its `x-tvg-url`, an empty one being none |
| M3u.BareAddress | crates/iptv/src/m3u.rs:178-194 | an address alone is a channel named by it |
| M3u.AddressIs | crates/iptv/src/m3u.rs:44-59 | which lines are addresses, by the nine schemes |
| M3u.NewInfoReplaces | crates/iptv/src/m3u.rs:152-173 | a directive takes back all that the one before it said |
| M3u.OtherLinesCountForNothing | crates/iptv/src/m3u.rs:178-184 | lines that are no directive of these and no address change no channel, wherever they stand |
| M3u.RefusedAs | crates/iptv/src/m3u.rs:95-125 | the three refusals, each exactly when: empty text, a receiver's bouquet by its first line that is not blank, no address |
| M3u.ChannelsSplit | crates/iptv/src/m3u.rs:193-198 | behind an accepted address nothing is carried over |
| M3u.ParseSplit | crates/iptv/src/m3u.rs:117-208 | text cut after an accepted address, at any of the three line ends, parses to the channels of its parts, one after the other |
| PlaylistCatalog.MergeOrphanCategories | crates/iptv/src/xtream.rs:188-226 | the result is the given list, the missing groups in ascending order, and the bucket if needed |
| PlaylistCatalog.CompletedCovers | crates/iptv/src/xtream.rs:188-226 | it starts with the given list and has a category for every stream, and no other ids |
| PlaylistCatalog.CompletedIs | crates/iptv/src/xtream.rs:185-226 | what completion adds, written out: the missing groups ascending with their names, and at the end the bucket |
| PlaylistCatalog.CompletedIsDistinctIff | crates/iptv/src/xtream.rs:209-224 | from distinct ids the result is distinct exactly when the reserved id is not needed twice |
| PlaylistCatalog.CompletedIsAccepted | crates/iptv/src/catalog_db.rs:186-215 | from trimmed distinct ids that leave the reserved one alone, replacing a shelf accepts the result |
| PlaylistCatalog.CompletingTwiceIff | crates/iptv/src/xtream.rs:192-224 | completing twice changes nothing exactly when every stream has a category and none the reserved one |
| PlaylistCatalog.BucketTwice | crates/iptv/src/xtream.rs:192-224 | one stream without a category gets the bucket twice |
| PlaylistCatalog.ChannelsToCatalog | crates/iptv/src/m3u_client.rs:245-285 | groups become distinct categories in id order under their first name, each channel a stream of its group, and a shelf accepts them |
| PlaylistCatalog.GroupIs | crates/iptv/src/m3u_client.rs:248-254 | a channel's group and its id, which does not tell case |
| PlaylistCatalog.StreamIs | crates/iptv/src/m3u_client.rs:259-279 | what becomes of a channel, by its type in any case |
| PlaylistCatalog.FirstNames | crates/iptv/src/m3u_client.rs:255 | a group is called the way its first channel writes it |
| PlaylistCatalog.NothingMissing | crates/iptv/src/m3u_client.rs:283-284 | for a playlist the completion is the identity |
| Pairing.RunKeepsPairing | crates/lan/src/pairing.rs:66-265 | in every run devices and tokens are inverse maps and every ticket names a device and the token it was minted with |
| Pairing.AcceptedTicketIsBacked | crates/lan/src/pairing.rs:193-206 | an accepted ticket belongs to a device still paired under the token it was minted with |
| Pairing.RevokedTicketStaysRefused | crates/lan/src/pairing.rs:253-265 | a ticket of a device that is revoked or paired again is accepted in no later state, restores included, unless it is minted anew |
| Pairing.TicketLastsTwelveHours | crates/lan/src/pairing.rs:175-206 | in every run a minted ticket is accepted for exactly twelve hours while its device is neither revoked nor paired again |
| Pairing.EachCodePairsOnce | crates/lan/src/pairing.rs:66-131 | each code yields at most one successful pairing |
| Pairing.PairMakes | crates/lan/src/pairing.rs:104-130 | what a successful pairing leaves in all four parts of the state |
| Pairing.PairFails | crates/lan/src/pairing.rs:90-103 | why a pairing fails, in the order of the checks, with nothing changed |
| Pairing.TouchMoves | crates/lan/src/pairing.rs:141-166 | a request under a token or a ticket only moves when its device was last seen |
| Pairing.RestoreInverseIff | crates/lan/src/pairing.rs:237-251 | restoring leaves inverse maps exactly when the records are coherent |
| Pairing.SharedTokenBreaksInverse | crates/lan/src/pairing.rs:237-251 | two devices stored with one token |
| Pairing.RestoreKeepsTicketsIff | crates/lan/src/pairing.rs:237-251 | restoring over tickets keeps them backed exactly when their devices get the same tokens |
| Pairing.RestoreOfExport | crates/lan/src/pairing.rs:230-251 | restoring an export is the identity exactly when no device id is empty |
| Pairing.PairingState.RefreshCode | crates/lan/src/pairing.rs:66-79 | a new code replaces the old |
| Pairing.PairingState.PairDevice | crates/lan/src/pairing.rs:90-131 | pairing consumes the code, replaces the device's token and drops its tickets, or reports the error |
| Pairing.PairingState.MintStreamTicket | crates/lan/src/pairing.rs:175-191 | a ticket is minted for a known token |
| Pairing.PairingState.ValidateStreamTicket | crates/lan/src/pairing.rs:193-206 | a ticket is accepted while it is there and young, and dropped once expired |
| Pairing.PairingState.ExportDevices | crates/lan/src/pairing.rs:230-235 | the export has each device once |
| Pairing.PairingState.RestoreDevices | crates/lan/src/pairing.rs:237-251 | the loop rebuilds both indexes |
| Pairing.PairingState.RevokeDevice | crates/lan/src/pairing.rs:253-265 | revoking removes the device, its token and its tickets |
| IdleWatch.CleanNeedsIdleSincePause | crates/lan/src/idle_watch.rs:101-158 | a swarm is cleaned only if at every tick since its pause the owner was idle, at least 120 s after it |
| IdleWatch.CleanMeansLongUnseen | crates/lan/src/idle_watch.rs:101-158 | with ticks at most 120 s apart, an owner that stayed paired was then unseen for more than 240 s |
| IdleWatch.ActivityIsFollowedByResume | crates/lan/src/idle_watch.rs:101-158 | in every run, if the owner of a paused swarm was active after the last tick and is still paired, the next tick resumes it |
| IdleWatch.LeaseMoves | crates/lan/src/idle_watch.rs:30-58 | what setting and clearing a lease leave, hashes compared in any case |
| IdleWatch.TickDropsLease | crates/lan/src/idle_watch.rs:101-114 | a tick drops a lease whose swarm is gone or another one |
| IdleWatch.TickPausesAndResumes | crates/lan/src/idle_watch.rs:101-158 | the whole state after a tick, in all four cases of owner and pause, with the 120 seconds written out |
| IdleWatch.SwarmStaysPaused | crates/lan/src/idle_watch.rs:101-158 | while a lease stays paused and no other swarm is started, the swarm found by the pausing tick is there and paused |
| IdleWatch.Watcher.Set | crates/lan/src/idle_watch.rs:30-41 | setting a lease replaces it, unpaused |
| IdleWatch.Watcher.ClearHash | crates/lan/src/idle_watch.rs:49-58 | clearing by hash removes only that lease |
| IdleWatch.Watcher.TickIdleWatch | crates/lan/src/idle_watch.rs:101-158 | a tick pauses, resumes, cleans or waits as the model decides |
| IdleWatch.Watcher.CleanLeaseTorrent | crates/lan/src/idle_watch.rs:160-176 | cleaning removes the swarm and the lease of the hash |
| CivilDate.ComputesTheDayNumber | crates/live-sports/src/espn.rs:213-225 | for every year, negative ones too, and every valid date, the formula is the day count of the proleptic Gregorian calendar |
| CivilDate.OrdersAsTheCalendar | crates/live-sports/src/espn.rs:213-225 | it orders valid dates as the calendar does, so it is injective |
| CivilDate.NextDayIsOneMore | crates/live-sports/src/espn.rs:213-225 | the day after is one more, over month and year ends |
| IsoTime.ParsesItsInstant | crates/live-sports/src/espn.rs:152-211 | every timestamp of section 5.6 of RFC 3339 with upper-case T parses to its epoch, the fraction dropped; year 0000 gives 0, and a lower-case z without a fraction loses the seconds |
| IsoTime.ParsesWithoutSeconds | crates/live-sports/src/espn.rs:152-211 | a timestamp whose seconds are left out, which RFC 3339 does not allow, parses to its minute; a lower-case z loses the minutes too |
| IsoTime.ParsesWithoutZone | crates/live-sports/src/espn.rs:188-207 | a timestamp without any zone counts as one of Greenwich |
| IsoTime.BrokenTextsGiveZero | crates/live-sports/src/espn.rs:158-184 | which texts give 0 |
| IsoTime.NumberParses | crates/live-sports/src/espn.rs:166-168 | what a field of digits, signed or not, reads as within its type |
| MpdRewrite.RewriteAttr | crates/proxy/src/ext.rs:216-234 | the loop that edits one attribute in place ends, stays in bounds and computes the recursive pass |
| MpdRewrite.RewriteBaseUrls | crates/proxy/src/ext.rs:236-258 | so does the loop over the BaseURL elements, though it goes on before a closing tag after an edit |
| MpdRewrite.RewriteAbsoluteUrls | crates/proxy/src/ext.rs:210-260 | the function is its nine passes, early return included |
| MpdRewrite.AttrPassCuts | crates/proxy/src/ext.rs:216-234 | an attribute pass replaces whole values base+r by r and keeps all other text: putting the base back restores it |
| MpdEdits.FirstValueIsCut | crates/proxy/src/ext.rs:216-234 | an attribute pass cuts the base off the first value that starts with it, leaves any other, and goes on behind it |
| MpdEdits.NoValueStays | crates/proxy/src/ext.rs:219 | without such a value the text stays |
| MpdEdits.OpenValueStays | crates/proxy/src/ext.rs:221-224 | and behind one that is never closed |
| MpdRewrite.BasePassEdits | crates/proxy/src/ext.rs:236-258 | an element pass edits whole contents only, white space around an address aside |
| MpdEdits.FirstElementBecomes | crates/proxy/src/ext.rs:236-258 | what the first element holds afterwards, case by case, the pass going on behind it |
| MpdEdits.NoElementStays | crates/proxy/src/ext.rs:237 | without an element the text stays |
| MpdEdits.OpenElementStays | crates/proxy/src/ext.rs:239-242 | and behind one that is never closed |
| MpdRewrite.PassesAreCuts | crates/proxy/src/ext.rs:214-258 | both, stage by stage for the whole rewrite |
| MpdEdits.PassesInOrder | crates/proxy/src/ext.rs:215-236 | the whole rewrite is four attributes with https, the same with http, and then the elements |
| MpdRewrite.NothingAbsolute | crates/proxy/src/ext.rs:211-213 | returning early changes nothing |
| MpdRewrite.BaseEndsInSlash | crates/proxy/src/ext.rs:36-51 | a session base ends in a slash and has no query, and no fragment unless the address had one; with the file name it makes up the address without its query; without a file name the entry is `index` |
| SessionAddress.AddressIsKeptIff | crates/proxy/src/ext.rs:245-255 | resolved by the player against the session and answered by its handler (lines 107-132), an element asks for the address it named before exactly under a condition on that address and the base |
| SessionAddress.DirectoryIsNamedIff | crates/proxy/src/ext.rs:251-255 | beside the base an address without dot segments names the base's directory exactly when it is the base short of its final slash |
| SessionAddress.StaysInSessionIff | crates/proxy/src/ext.rs:102-116 | with dot segments removed a relative path is asked of the session exactly when it never climbs out of it |
| SessionAddress.DoubledSlashIsLost | crates/proxy/src/ext.rs:246-250 | an address with a doubled slash behind the base is cut and then asked of the proxy's root |
| SessionAddress.QueryIsLost | crates/proxy/src/ext.rs:101-132 | an address with a query is cut and then asked for without it |
| SessionAddress.TwoDotsAreRefused | crates/proxy/src/ext.rs:127-129 | an address with two dots in a name is cut and then refused |
| SessionAddress.ParentDirectoryIsLost | crates/proxy/src/ext.rs:246-250 | an address in the parent directory is cut and then not asked of the session |
| SessionAddress.SiblingDirectoryIsLost | crates/proxy/src/ext.rs:251-255 | a directory that starts like the base is emptied and then means another address |
| ProxySessions.SessionTable.EvictStale | crates/proxy/src/ext.rs:58-72 | eviction leaves the fresh sessions, or the 47 newest of them |
| ProxySessions.FreshIff | crates/proxy/src/ext.rs:20-60 | retained is what was created less than three hours ago |
| ProxySessions.SessionTable.Insert | crates/proxy/src/ext.rs:88-99 | inserting never exceeds 48 sessions |
| ProxySessions.DroppedAreOldest | crates/proxy/src/ext.rs:63-71 | what is dropped is no newer than what stays |
| HexCodec.DecodeHex | crates/engine/src/crypto_host.rs:19-41 | the decoding loop decodes all pairs or fails |
| HexCodec.HexRoundTrip | crates/engine/src/crypto_host.rs:19-45 | decoding undoes encoding |
| HexCodec.TextRoundTrip | crates/engine/src/crypto_host.rs:19-45 | encoding undoes decoding, on text an encoder produces |
| HexCodec.DecodesBehind | crates/engine/src/crypto_host.rs:19-41 | text decodes behind whole bytes exactly when it decodes alone, of odd length too |
| HexCodec.HexToWords | crates/engine/src/crypto_js_polyfill.js:3-11 | word k stands for the k-th eight digits, the last filled up with zeros |
| HexCodec.WordsToHex | crates/engine/src/crypto_js_polyfill.js:12-22 | digits 2i and 2i+1 are those of byte i of the words |
| HexCodec.ThroughWords | crates/engine/src/crypto_js_polyfill.js:3-22 | hexadecimal text survives the way through words |
| BlockCipher.UnpadIffPadded | crates/engine/src/crypto_host.rs:263-283 | unpadding yields a message exactly from that message padded |
| BlockCipher.PadIs | crates/engine/src/crypto_host.rs:263-269 | padding adds one to sixteen bytes, each telling how many |
| BlockCipher.AesEcb | crates/engine/src/crypto_host.rs:198-235 | the in-place block loop and its errors meet the definition |
| BlockCipher.EcbRoundTrip | crates/engine/src/crypto_host.rs:198-235 | decryption undoes encryption, padded or on whole blocks |
| Aes.CbcRoundTrip | crates/engine/src/crypto_host.rs:125-196 | so it does under chaining |
| Aes.ChainedBlock | crates/engine/src/crypto_host.rs:125-196 | each cipher block is what encrypting makes of the plain block with the bits set where it differs from the cipher block before it, or from the IV |
| Aes.ApplyRoundTrip | crates/engine/src/crypto_host.rs:99-123 | encryption succeeds exactly for usable keys, IVs and lengths, and is then undone, in every mode |
| Passphrase.EvpBytesToKey | crates/iptv/src/pastesh.rs:74-89 | the Rust loop derives the first bytes of the digest stream |
| Passphrase.EvpKdf | crates/engine/src/crypto_js_polyfill.js:128-142 | wherever the JavaScript loop ends it returns its rounds cut to length, for any fixed-length digest; over text of even length, as encoders write it, the same key and IV as the Rust loop |
| Passphrase.DerivationEndsIff | crates/engine/src/crypto_js_polyfill.js:132-137 | for every passphrase and salt text the loop reaches the length asked for exactly when the two together decode |
| Passphrase.BadSaltNeverDerives | crates/engine/src/crypto_js_polyfill.js:132-137 | otherwise no number of rounds derives anything |
| Passphrase.RoundsAreStream | crates/engine/src/crypto_js_polyfill.js:132-137 | over text of even length the rounds are the digest stream of its bytes |
| Passphrase.EncodedSeed | crates/engine/src/crypto_host.rs:19-45 | what an encoder writes of passphrase and salt is such text, and its bytes are theirs |
| Passphrase.ZzNeverDerives | crates/engine/src/crypto_js_polyfill.js:132-137 | the salt `zz` never derives, the salt `+1` is not hexadecimal and decodes |
| Passphrase.LongerKeyExtends | crates/iptv/src/pastesh.rs:74-89 | more key material extends less |
| Passphrase.EnvelopeRoundTripIff | crates/engine/src/crypto_js_polyfill.js:233-251 | parsing undoes formatting exactly for eight-byte salts, and without a salt exactly when the ciphertext does not look like an envelope |
| Passphrase.UrlTextIsRead | crates/engine/src/crypto_js_polyfill.js:83-93 | base64 is read without its padding too, and in the alphabet for addresses |
| Passphrase.ShortSaltIsLost | crates/engine/src/crypto_js_polyfill.js:233-251 | before whole blocks of ciphertext a salt of one byte comes back filled up with the ciphertext's first seven |
| Passphrase.EncryptGives | crates/engine/src/crypto_js_polyfill.js:300-330 | encryption returns the salt and the message under the derived key and the IV given, or else derived; the empty text where the mode refuses them |
| Passphrase.DecryptUndoesEncryptIff | crates/engine/src/crypto_js_polyfill.js:300-391 | through the envelope, decryption gives the message back exactly when the mode takes it or it is empty |
| Passphrase.DefaultRoundTrip | crates/engine/src/crypto_js_polyfill.js:300-391 | with the default options it always does, for every message and passphrase and an eight-byte salt |
| Passphrase.DecryptBlob | crates/iptv/src/pastesh.rs:9-28 | a paste is decrypted with the stretched key if that gives text, and else with the derived one |
| Passphrase.CbcTextIff | crates/iptv/src/pastesh.rs:64-72 | a text is given exactly when key and IV have 32 and 16 bytes and the blocks decrypt to that text padded; it must be UTF-8 |
| Passphrase.BlobGives | crates/iptv/src/pastesh.rs:9-28 | fewer than seventeen bytes give nothing; a non-empty text of the stretched key counts, and else what the derived key gives |
| Passphrase.PasteReadsJavaScript | crates/iptv/src/pastesh.rs:59-72 | the derived key of the Rust reader decrypts what the JavaScript side encrypts |
| Passphrase.PasteReadsJavaScriptIff | crates/iptv/src/pastesh.rs:9-28 | what the JavaScript side encrypts of a text is read back as it exactly when the stretched key gives nothing, an empty text, or the same |

## Left out

- ProviderStore.Store.SetIdentityScope: one atomic step; the original drops its lock between switching and loading, and between changing and persisting.
- ProviderStore.Store.Persist: storage always succeeds; a failing write is not modelled.
- ProviderStore.ReloadIsIdentityIff: a stored record is its integer entries; JSON text and entries of other types are not modelled.
- ProviderStore.RebuildIsBounded: a record of more than 2^29 titles may wrap its sum and is not covered.
- ProviderHealth.VerdictKeepsBound: provider ids are trimmed and folded as ASCII; Unicode case folding is not modelled.
- EngineJobs.JobStore.SubmitJob: ids are unbounded, so the 64-bit counter never wraps.
- EngineJobs.JobStore.CancelEverything: the process-wide cancellation flag raised beside it is not part of this model.
- ReleaseManifest.BuildArches: the listing order of architectures is a parameter that lists each key once; entries are typed, so malformed JSON values and blank dates do not occur.
- ReleaseMerge.WrittenIsNormal: manifests without `arches` (the flat legacy form and bare asset lists) are not modelled.
- ReleaseMerge.MergePlatformManifest: a stored manifest in the flat legacy form is not modelled either.
- ReleaseBucket.EveryMomentIsGood: object names, not their contents; no other writer of the bucket runs meanwhile; the release version is plain text without spaces or a leading v.
- ReleaseBucket.Publisher.Publish: the version's own manifest is a key without content, changelog files likewise, and deletions go one by one where the original sends a thousand in a request.
- ReleaseBucket.Publisher.PatchDownloaderCodes: what the version's own manifest says is a parameter, since its content is not modelled.
- StalkerWalk.FetchOrderedList: pages are divided exactly where the original divides in floating point; both agree below the page limit. Request retries and the session are not modelled.
- StalkerWalk.ParallelWalkTail: a panicked task is a failed page.
- Catalog.CatalogDb.ReplaceShelf: SQLite errors other than a repeated key do not occur; payloads read back as the JSON that was stored.
- CatalogPage.Page: a request's section and portal are resolved already; paging arithmetic is unbounded.
- CatalogQuery.OrderingIsUnique: NOCASE compares the names folded as ASCII, by code point.
- M3u.ParseWithHeader: the attribute regular expression is a parameter; address prefixes are folded as ASCII.
- PlaylistCatalog.ChannelsToCatalog: downloading, caching and the guide are not part of this model.
- Pairing.RunKeepsPairing: tokens and tickets are fresh, and a restore that breaks coherence is excluded as the condition of the two restore lemmas says.
- IdleWatch.CleanMeansLongUnseen: a tick is atomic, and the torrent engine is one swarm with a hash and a flag; files and history entries that cleaning deletes are not modelled.
- IdleWatch.Watcher.CleanLeaseTorrent: history entries and cache files that cleaning deletes are not modelled.
- IsoTime.ParsesItsInstant: local offsets and dates must be valid as RFC 3339 requires; of other texts only those without seconds, without a zone, or giving 0 are described.
- SessionAddress.AddressIsKeptIff: only addresses without percent-encoding, which the handler decodes; the base comes from an address without a fragment; the session's random id is no segment of the address.
- SessionAddress.DirectoryIsNamedIff: addresses without dot segments, query or fragment; for others the condition is `IsDirectory` itself.
- ProxySessions.SessionTable.Insert: the session id is a parameter; request handling and headers are not part of this model.
- HexCodec.DecodeHex: text is folded as ASCII.
- HexCodec.HexToWords: only hexadecimal text of even length; what `parseInt` makes of other text is not modelled.
- Passphrase.EvpKdf: the loop is taken where it ends, which is `DerivationEndsIff`; over text of odd length what it returns is given by its rounds, not as a stream of bytes.
- Passphrase.DecryptUndoesEncryptIff: the salt of the text is used; a salt given again in the decryption options is not modelled. UTF-8 decoding of the result is a parameter of the paste reader only.
- AES, SHA and MD5 internals, base64, PBKDF2, HMAC and scrypt are parameters or absent.
- HTTP, DNS, sockets, TLS, the QuickJS host, the request signer and the FFI layer are absent.
- Fetch guards, portal extraction, the Reddit catalogue, region and stream probing, sport matching and the web application are absent.
