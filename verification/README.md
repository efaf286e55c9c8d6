# Models of the gateway's protocols and algorithms

This project models the parts of the gateway whose correctness spans several functions,
goroutines or restarts, and proves what they promise. Code that works by changing things
step by step is modelled by methods and classes proved against specification functions;
protocols that can be interrupted or interleaved are modelled as state machines over
their atomic steps; the laws are lemmas about those functions and machines.

## The modules

| files | what they model |
|---|---|
| `Ingress`, `IngressLaws`, `IngressRows`, `IngressSync`, `IngressRetries`, `IngressLimits`, `RemoteRoutes`, `RouteEdits`, `RouteSaves`, `RouteAdoption`, `RouteConflicts`, `ConflictRows`, `Json` | the synchroniser of tunnel routes with the ingress table in the cloud: the merge, its meaning, the journal around it, edits, adoption and conflicts |
| `Scheduler`, `ReversePick` | smooth weighted round robin, and the choice of a backend in place |
| `Admission`, `AdmissionSteps`, `AdmissionSafety`, `AdmissionProgress`, `PoolAdmissions`, `Counters`, `Tallies` | admission to backend pools shared by handlers across reloads |
| `RuntimeFiles`, `RuntimeSwitch`, `RuntimeProgress` | the journalled exchange of a running program's binary |
| `UrlEscape`, `ProxyPaths`, `Locations` | request paths rewritten for a backend, and redirects rewritten back |
| `Limiter`, `RateBounds` | token buckets |
| `MinuteSeries` | per-minute traffic |
| `LogEntries`, `LogRing`, `LogPaging`, `LogReading` | recent log entries, paging through them while entries arrive, and both logs read together |
| `StateStore`, `StateProgress` | debounced writing of the running state |
| `HandlerCache`, `RuleIDs` | cached rule handlers across updates, and the rule IDs they rely on |
| `ReloadLoop` | coalesced certificate reloads |
| `Stun` | decoding of a STUN binding response |
| `Wrappers` | failure types |

## What is assumed

Things the code calls but that are not here are parameters or hypotheses:

- The way a row's hostname and path patterns match a request is any predicate that accepts
  a catch-all; the path of a site's socket is any function; URL parsing, the spelling under
  which a row's noTLSVerify is found, validation of submitted routes and new IDs are parameters
  of the edit.
- The exact results on retries (`IngressRetries`) assume nothing about shared hostnames. Their
  condition, `FitsJournal`, can be looked up in the table before the journal is saved; swapping
  two hostnames (`IngressLimits.SwapBreaksRetry`) and deleting a route to create another one
  for its hostname (`IngressLimits.RecreationBreaksRetry`) violate it.
- `CrashSafety` says more, that interrupted runs keep computing the very table of the first
  attempt, and for that it assumes `Unshared`, no hostname claimed or desired by two route IDs,
  and `TableStaysKnown`, no owned row turning unknown when the journal is saved, which happens
  only to a row without a service (`IngressLimits.EmptyServiceBreaksRetry`). Where nothing is
  shared the second condition is exact (`IngressSync.SameTableExactlyWhen`).
- Critical sections and atomic operations are single steps, and times come from an explicit
  clock that does not go back. Go's memory model is not modelled.
- A file operation either happens or does not, and what has been renamed stays so. A crash
  of the manager takes its workers down (internal/tunnel/process_linux.go:11).
- Numbers are unbounded, except the turn counter of round robin, which wraps; tokens and
  seconds are real numbers.
- `ServicesInForce`: the first service rule of every ID of a site is the rule in force, as it
  is when rule IDs are unique (`HandlerCache.UniqueIDsNeverGoStale`). The exact condition for a
  whole run is `AlwaysInForce` (`HandlerCache.NeverStaleExactlyWhen`). The API makes the IDs of
  every site unique before it saves it (`RuleIDs.SavedNeverGoStale`), provided that new IDs, which
  are random, are not in use and differ (`Random`). Duplicates come only from a configuration
  that did not pass through it, such as a restored one (internal/config/config.go:484).
- Sorting both logs by time is the library's stable sort, which is determined by what it
  promises (`LogEntries.SortedStably`, `LogEntries.StableSortIsUnique`).

## Model

| member | source | states |
|---|---|---|
| Ingress.OwnedRouteBindings | internal/tunnel/routes.go:22-33 | the claims of current and retired routes by hostname |
| Ingress.BindIsLastClaimant | internal/tunnel/routes.go:20-33 | a hostname is owned exactly when a route claims it, by its last claimant, current routes after retired ones |
| Ingress.AppendNewEntries | internal/tunnel/routes.go:50-57 | one new row for every desired hostname not seen yet, in route order, behind the rows there are |
| Ingress.MergeIngress | internal/tunnel/routes.go:36-99 | the merged configuration or the first error, for every table and every set of routes |
| IngressLaws.UpdateKeepsOtherFields | internal/tunnel/routes.go:101-125 | updating an entry leaves every member but hostname, service and origin request as it was |
| IngressLaws.UpdateIsIdempotent | internal/tunnel/routes.go:101-125 | updating again for a route with the same publication changes nothing |
| IngressLaws.ForeignRowsKept | internal/tunnel/routes.go:59-99 | rows of others keep content and order; only a closing 404 can be added, when there was no catch-all |
| IngressLaws.RequestsToForeignHostsUnchanged | internal/tunnel/routes.go:36-99 | a request for no claimed and no desired hostname gets the same first match before and after, or the 404 |
| IngressLaws.MergePlacesDesired | internal/tunnel/routes.go:36-99 | each desired hostname has exactly one row, without a path, before the first catch-all, bound to its service; dropped claims have none |
| IngressLaws.SettledIsFixpoint | internal/tunnel/routes.go:59-99 | a table in which every managed row is up to date merges to itself |
| IngressRows.DesiredRowsSay | internal/tunnel/routes.go:36-125 | after a merge the row of a desired hostname says, member by member, what its route says: service, noTLSVerify, and the host header written for a site, kept for a URL, or gone when it was the one written for a site before; in place of the row that belonged to the route, or as a new one |
| IngressRows.DesiredRowStands | internal/tunnel/routes.go:36-99 | it is the only row of its hostname without a path, and stands before every row for all hostnames, of which there is one |
| IngressRows.OthersStayInPlace | internal/tunnel/routes.go:59-99 | rows that nobody owns and no route wants, or that have a path, come out as they were, one behind the other as before |
| IngressRows.NewRowsInOrder | internal/tunnel/routes.go:50-57 | new rows come in the order of their routes |
| IngressSync.RecordAttempt | internal/tunnel/routes.go:192-195 | the journal: every route records hostname and service it is about to publish |
| IngressSync.RecordApplied | internal/tunnel/routes.go:205-211 | every route records what the cloud has now, and nothing is pending |
| IngressSync.Synchronizer.SyncCloud | internal/tunnel/routes.go:175-238 | the records and the cloud after a run that stops at any of its steps |
| IngressSync.EachStopLeaves | internal/tunnel/routes.go:175-238 | what each stop leaves, field by field: pending after the journal, applied and nothing pending after the apply, retired routes forgotten only at the end; nothing changes when the merge is refused |
| IngressSync.JournalOwnerStays | internal/tunnel/routes.go:22-33 | saving the journal leaves each claimed hostname with the record that owned it |
| IngressSync.JournalMergesAlike | internal/tunnel/routes.go:36-99 | with the journal saved, the old table merges to the same table when no row turns unknown, and is refused for a changed service otherwise |
| IngressSync.CompletedSyncIsFixpoint | internal/tunnel/routes.go:175-238 | after a completed run the table merges to itself |
| IngressSync.CrashSafety | internal/tunnel/routes.go:175-238 | any number of interrupted runs leave a state that merges to the table of the first attempt; the cloud has the old table or that one; a run that completes ends as an undisturbed one |
| IngressSync.SameTableExactlyWhen | internal/tunnel/routes.go:175-238 | where no hostname is shared, interrupted runs keep computing the table of the first attempt if and only if no owned row turns unknown with the journal saved |
| IngressRetries.MergeDecided | internal/tunnel/routes.go:59-99 | a merge succeeds if and only if every row fits (its owner knows its service, a desired row is owned, a current owner is placed once and before a catch-all), and otherwise reports the first misfit |
| IngressRetries.MergeAcceptedExactlyWhen | internal/tunnel/routes.go:36-99 | a configuration is refused as malformed exactly when its table is there and is not a list of objects, and accepted exactly when it is readable and every row fits; everything but the table stays |
| IngressRetries.LostPutRetriesExactlyWhen | internal/tunnel/routes.go:192-204 | after a lost PUT the next run is accepted if and only if every row fits the journal, whoever shares a hostname |
| IngressRetries.LostPutRepublishes | internal/tunnel/routes.go:175-238 | and then its table publishes the same routes and keeps the same rows of others as that of the first attempt |
| IngressRetries.UnnoticedPutRetriesExactlyWhen | internal/tunnel/routes.go:192-211 | after an accepted PUT without an answer the retry computes the same table if no later route still holds the new hostname of an earlier one, and is refused otherwise, whoever shares a hostname |
| IngressRetries.CrashSafeExactlyWhen | internal/tunnel/routes.go:175-238 | running again is accepted after every interrupted sequence of runs if and only if every row fits the journal and no later route still holds the new hostname of an earlier one, whoever shares a hostname; and then the run after an unnoticed one computes the same table |
| IngressLimits.SwapBreaksRetry | internal/tunnel/routes.go:64-70 | swapping the hostnames of two routes and losing the PUT makes the retry fail with a changed service |
| IngressLimits.EmptyServiceBreaksRetry | internal/tunnel/routes.go:64-70 | a row of a published route without a service is merged at first and refused after a lost PUT |
| IngressLimits.RecreationBreaksRetry | internal/tunnel/routes.go:64-70 | deleting a route and creating another one for its hostname with another service is merged at first and refused after a lost PUT |
| IngressLimits.RecreationIsOneEdit | internal/tunnel/api_routes.go:92-211 | and the management API accepts that edit in one save |
| RemoteRoutes.RemoteRouteViews | internal/tunnel/api_routes.go:23-48 | the view of every row, in table order, malformed rows as empty ones, with credentials of parsed services hidden |
| RemoteRoutes.ViewSays | internal/tunnel/api_routes.go:23-48 | what is shown of a row, field by field |
| RouteEdits.FindAdoptable | internal/tunnel/api_routes.go:156-175 | the one row that can be adopted for a hostname, or that there are several |
| RouteAdoption.AdoptedRowIsOwned | internal/tunnel/api_routes.go:156-197 | a saved item adopts the only editable row of its hostname; the last item to claim that hostname owns it, the adopting one exactly when no later item claims it; the owner has adopted the row as well or was on record with the hostname pending |
| RouteAdoption.AdoptedRowIsRefusedExactlyWhen | internal/tunnel/routes.go:64-82 | the merge of that table reports the adopted row as changed if and only if the last item to claim its hostname edits a route that has it pending and knows the row's service neither as applied nor as pending; it never reports it as foreign |
| RouteAdoption.AdoptedRowIsTakenOver | internal/tunnel/api_routes.go:156-197 | the next merge of that table is refused in that case, and if it succeeds the row carries its owner's hostname and service, the only row of that hostname, with its other settings; the owner is the adopting item's route exactly when no later item claims the hostname |
| IngressLimits.PendingClaimBlocksAdoption | internal/tunnel/api_routes.go:192-196 | adopting a row while a later route has its hostname pending with another service is saved, and the merge of that table is refused |
| IngressLimits.AdoptedTwiceIsAccepted | internal/tunnel/api_routes.go:190-196 | one save may adopt the same row into two routes: only the records before it are looked at; the second route owns the row, and the merge succeeds |
| RouteEdits.RetireDropped | internal/tunnel/api_routes.go:200-204 | routes with a claim that the edit dropped are appended to the retired ones |
| RouteEdits.SaveRoutes | internal/tunnel/api_routes.go:92-211 | the records after an edit, or the first error |
| RouteSaves.AcceptedExactlyWhen | internal/tunnel/api_routes.go:92-197 | a submission is refused when it is too long, and otherwise for the first item that is unknown, invalid, a duplicate, taken or not to be adopted; if there is none it is accepted |
| RouteSaves.SavedRoutesAreAsSubmitted | internal/tunnel/api_routes.go:112-197 | every saved route has the submitted zone, target and site and validation's hostname, URL and flag; its DNS record stays if and only if hostname and zone do; its claims are those of the record it edits or of the row it adopts |
| RouteSaves.RetiredExactlyWhen | internal/tunnel/api_routes.go:148-204 | an old route is retired, once, if and only if it has a claim and is either gone or saved with another hostname, zone, service or TLS flag |
| RouteEdits.EditsForgetNothing | internal/tunnel/api_routes.go:148-204 | every claim of an old route survives an edit, under its ID, in a current or a retired record |
| RouteEdits.OneRoundOfEdits | internal/tunnel/api_routes.go:148-204 | an edit of synced records leaves nothing pending and retired versions with the claims of their routes |
| RouteEdits.EditThenSyncIsCrashSafe | internal/tunnel/api_routes.go:92-211 | after a completed sync and one edit without shared hostnames, syncing is crash safe and ends synced |
| RouteEdits.EditThenSyncExactlyWhen | internal/tunnel/api_routes.go:92-211 | without that assumption, running again is accepted after every interrupted sequence of runs after the edit if and only if every row fits the journal and no later route still holds the new hostname of an earlier one |
| RouteConflicts.RouteConflictsOf | internal/tunnel/reconcile.go:18-53 | the reported conflicts, in the order of the records |
| RouteConflicts.ViewIsComplete | internal/tunnel/reconcile.go:18-53 | an owned hostname with rows either agrees with its record or is reported, once and with its description |
| ConflictRows.ReportedExactlyWhen | internal/tunnel/reconcile.go:18-53 | an owned hostname is reported if and only if the table has rows of it without a path that are not just one with the service on record |
| ConflictRows.ConflictSays | internal/tunnel/reconcile.go:36-49 | what a reported conflict says of the first row, of the route that owns the hostname, and whether it can be taken over |
| ConflictRows.ReportedInRecordOrder | internal/tunnel/reconcile.go:31-51 | conflicts come in the order in which the records first claim their hostnames, current routes first |
| RouteConflicts.ReconcileRoutes | internal/tunnel/reconcile.go:57-111 | the records after the chosen conflicts have been acknowledged, or the error; with every conflict chosen, the merge of that table reports no changed service |
| RouteConflicts.AcknowledgeRoutes | internal/tunnel/reconcile.go:86-110 | an acknowledged claim takes the service found in the cloud |
| ConflictRows.AcknowledgedExactly | internal/tunnel/reconcile.go:98-107 | and nothing else of a record changes |
| RouteConflicts.AcknowledgedTableIsAccepted | internal/tunnel/reconcile.go:86-110 | when every reported conflict was recoverable and acknowledged, the merge of that table cannot fail for a changed service |
| RouteConflicts.ReconciledTableIsAccepted | internal/tunnel/reconcile.go:57-111 | a successful request that leaves out no reported hostname makes the merge of that table report no changed service |
| Scheduler.BestIsFirstGreatest | internal/webproxy/reverse.go:334-350 | the choice is the first eligible node with the greatest raised weight, and none only when none is eligible |
| Scheduler.ChooseKeepsSum | internal/webproxy/reverse.go:334-353 | a pick keeps the sum of the current weights |
| Scheduler.ZeroSum | internal/webproxy/reverse.go:326-354 | the current weights sum to zero after any picks, whatever was eligible at each |
| Scheduler.StaysAboveMinusTotal | internal/webproxy/reverse.go:326-354 | with fixed eligibility no current weight falls to minus the total |
| Scheduler.OnePeriod | internal/webproxy/reverse.go:326-354 | after as many picks as the total weight each eligible node was picked exactly weight times and all is back at zero |
| Scheduler.Periodic | internal/webproxy/reverse.go:326-354 | the state repeats with that period |
| Scheduler.ExactlyFair | internal/webproxy/reverse.go:326-354 | any stretch of that many consecutive picks chooses each node exactly as often as its weight |
| ReversePick.ReverseHandler.PickWeighted | internal/webproxy/reverse.go:327-354 | the loop updates the weights in place as the specification says and returns its choice |
| ReversePick.ReverseHandler.PickInTurn | internal/webproxy/reverse.go:355-375 | the first node from the counter's position that is not excluded, not taken out by the active check and not cooling down, else the first not excluded, else the excluded one |
| ReversePick.ReverseHandler.EveryNodeHasItsTurn | internal/webproxy/reverse.go:356-361 | the positions visited are every node exactly once |
| ReversePick.ReverseHandler.Pick | internal/webproxy/reverse.go:326-375 | a pool gives none if and only if every node is excluded, taken out by the active check, cooling down or at its limit, and otherwise the first of the others with the greatest raised weight, raising exactly those; without a pool the nodes take turns |
| PoolAdmissions.TakeSlot | internal/webproxy/backend_pool.go:61-74 | with other goroutines changing the counter between load and swap: taken below the limit, refused at it |
| PoolAdmissions.PoolAdmission.Node | internal/webproxy/backend_pool.go:30-43 | the URL's slot, a new one when there is none, with one more reference |
| PoolAdmissions.PoolAdmission.Release | internal/webproxy/backend_pool.go:44-60 | one reference back for every URL, nodes without references dropped; with the last member gone retired and, if still listed, removed from the table |
| PoolAdmissions.PoolAdmissionFor | internal/webproxy/backend_pool.go:75-89 | one more member of the listed admission, or a new one where none is listed or the listed one has retired; what is returned is listed and has not retired |
| AdmissionSteps.MembersLeave | internal/webproxy/backend_pool.go:55-59 | members stay the number of handlers not released, and the last one to leave retires the admission |
| AdmissionSteps.RefsLeave | internal/webproxy/backend_pool.go:47-54 | reference counts stay the references handlers hold, duplicates counted |
| AdmissionSteps.IdleHasNoLiveRequest | internal/webproxy/reverse.go:384-391 | a handler with no requests counted has none inside |
| AdmissionSafety.StepKeeps | internal/webproxy/backend_pool.go:17-90 | every step of every goroutine keeps the invariant of counters, references, members and table |
| AdmissionSafety.SharedAdmission | internal/webproxy/backend_pool.go:75-90 | all handlers of a pool not yet released share the one listed admission, which has not retired |
| AdmissionSafety.CountersAreSlotsInUse | internal/webproxy/reverse.go:392-433 | the counters of pools and nodes are the slots held by requests and never exceed the largest limit among the handlers whose requests hold those slots now, whatever limits reloads have replaced |
| AdmissionSafety.ReleasedExactlyOnce | internal/webproxy/reverse.go:377-418 | a handler gives its admission back once, exactly when it is retired and its last request is gone |
| AdmissionSafety.DroppedAreIdle | internal/webproxy/backend_pool.go:44-60 | a retired admission has no request, member or reference; a node slot in use is still listed |
| AdmissionSafety.RemovalsDoNotBlock | internal/webproxy/backend_pool.go:75-90 | a member never waits for a removal, and who starts over does not find the retired admission again |
| AdmissionSafety.ShutdownKeeps | internal/webproxy/healthcheck.go:85-94 | shutting a handler down keeps the invariant, whether or not the release is due |
| AdmissionSafety.FinishKeeps | internal/webproxy/reverse.go:386-418 | so does the end of a request, with the release of a retired handler |
| AdmissionProgress.PoolSlotExactlyWhen | internal/webproxy/backend_pool.go:61-74 | a request gets a slot of its pool if and only if fewer requests hold one than the limit, 4096 when there is none; otherwise it leaves and nothing else changes |
| AdmissionProgress.NodeSlotExactlyWhen | internal/webproxy/reverse.go:420-433 | the same for a node, with the node's limit or else the pool's |
| AdmissionProgress.OneRetry | internal/webproxy/reverse.go:308-323 | a request whose first node was granted may ask for one more, and for no third |
| AdmissionProgress.RequestLeavesNoTrace | internal/webproxy/reverse.go:377-433 | a request to a serving handler can always go through, and when it is gone everything is as before it came |
| AdmissionProgress.JoinExactlyWhen | internal/webproxy/backend_pool.go:75-90 | a handler becomes a member if and only if the admission it found has not retired, and looks again otherwise |
| AdmissionProgress.HandlerComesUp | internal/webproxy/backend_pool.go:30-90 | a new handler ends up serving by its own steps alone, with a slot for each node, as one more member of the admission listed for its pool |
| AdmissionProgress.ShutdownGivesBack | internal/webproxy/reverse.go:413-418 | a handler that is shut down takes no more requests; it gives its admission back at once if none is inside, and otherwise only it changes |
| AdmissionProgress.LastRequestGivesBack | internal/webproxy/reverse.go:386-391 | the last request of a handler that has been shut down gives its admission back, references and membership |
| AdmissionProgress.RemovalUnlists | internal/webproxy/backend_pool.go:55-59 | an admission that its last member has left can be removed, and then none is listed for its pool |
| AdmissionProgress.HandlersAreNotStuck | internal/webproxy/backend_pool.go:75-90 | every handler has a next step, and only one about to join waits, for a removal that can be made |
| AdmissionProgress.RequestsAreNotStuck | internal/webproxy/reverse.go:377-433 | every request inside a handler has a next step |
| RuntimeFiles.RuntimeDir.SaveJournal | internal/tunnel/runtime_files.go:113-134 | a crash leaves the old journal or the new one |
| RuntimeFiles.RuntimeDir.RecoverRuntime | internal/tunnel/runtime_files.go:145-194 | wherever it stops, recovery still leads to the same program; completed, that program is in place and nothing else is left |
| RuntimeFiles.RuntimeDir.CleanupTemps | internal/tunnel/runtime_files.go:196-210 | only downloads and the temporary journal go |
| RuntimeFiles.RuntimeDir.RecoverAgain | internal/tunnel/runtime_files.go:145-194 | the same for recovery restarted after any number of crashes |
| RuntimeSwitch.StepKeeps | internal/tunnel/runtime_install.go:173-288 | every step, error and crash of an install keeps the invariant |
| RuntimeSwitch.CrashSafe | internal/tunnel/runtime_install.go:220-287 | a completed recovery leaves the new program if the last durable journal is a commit and the original otherwise, and nothing else |
| RuntimeSwitch.SuccessIsDurable | internal/tunnel/runtime_install.go:263-287 | the closing recovery runs only over a durable commit and keeps the new program |
| RuntimeSwitch.FailedUndo | internal/tunnel/runtime_install.go:277-282 | when the success cannot be recorded and taking the commit back fails as well, recovery keeps the new program although an error is reported, unless the journal had already been replaced |
| RuntimeSwitch.RecoversLikeTheMethod | internal/tunnel/runtime_files.go:145-194 | recovery step by step among the other processes ends in the same files as the method |
| RuntimeProgress.UndisturbedInstalls | internal/tunnel/runtime_install.go:173-288 | an install without crash, error or other install is never rolled back, and the manager is idle again only after recording the success, with the new program and nothing else in place |
| RuntimeProgress.InstallCanSucceed | internal/tunnel/runtime_install.go:173-288 | from every idle state an install can be begun and succeed |
| RuntimeProgress.RollBackHasAReason | internal/tunnel/runtime_install.go:236-250 | the manager rolls back only after an error, when the download has gone, or to take back a commit that could not be recorded |
| RuntimeProgress.FailedInstallRestores | internal/tunnel/runtime_install.go:220-282 | when one step of an install fails the manager becomes idle with the program there was before, unless the commit had been renamed into place and merely syncing it failed |
| RuntimeProgress.StepsAreBounded | internal/tunnel/runtime_install.go:173-288 | from every state the manager takes a bounded number of undisturbed steps |
| RuntimeProgress.BecomesIdle | internal/tunnel/runtime_install.go:173-288 | and they lead to an idle state |
| RuntimeProgress.AnythingCanHappen | internal/tunnel/runtime_install.go:173-288 | the runs those results are about: crashes at any time, errors from every step of an install that reports one, restarts, installs and workers |
| RuntimeSwitch.TargetChangesOnlyWhileStopped | internal/tunnel/runtime_install.go:103-132 | the program file changes only while no worker runs and none can start |
| UrlEscape.EscapeDecodes | internal/webproxy/reverse.go:476 | the default encoding of a path decodes to it |
| UrlEscape.EscapesExactly | internal/webproxy/reverse.go:476 | letters, digits and - _ . ~ $ & + , / : ; = @ stand for themselves, every other byte is a percent sign and two upper-case digits |
| UrlEscape.UnhexExactly | internal/webproxy/reverse.go:476 | hexadecimal digits of either case are read, and nothing else |
| UrlEscape.EncodableExactly | internal/webproxy/reverse.go:476 | an encoded path may have those bytes and ! ' ( ) * [ ] % |
| UrlEscape.EncodedFormIsKeptExactlyWhen | internal/webproxy/reverse.go:476 | the encoded form that came in is used if and only if it is one of the path |
| UrlEscape.EscapedPathDecodes | internal/webproxy/reverse.go:476 | the encoded path decodes to the path, whatever the raw path is |
| ProxyPaths.StripFrontendURL | internal/webproxy/reverse.go:470-496 | the loop over the encoded path stays in range and yields the tail behind prefix and boundary slash in both forms |
| ProxyPaths.StripIsCoherent | internal/webproxy/reverse.go:454-495 | a URL under the prefix is stripped of exactly that and rooted, a URL elsewhere stays; both forms stay in step and the bytes behind the prefix are the ones that came in |
| ProxyPaths.JoinIsCoherent | internal/webproxy/reverse.go:498-520 | exactly one slash comes between the parts in the form that is sent; a joined raw path decodes to the joined path and is sent as it is |
| ProxyPaths.RewriteIsCoherent | internal/webproxy/advanced.go:91-97 | the rewrite prefix comes in place of the frontend's, in both forms, with the bytes behind it that came in |
| Locations.AmbiguousJoin | internal/webproxy/dispatch.go:288-298 | a path with a slash in it is unambiguous exactly when both sides are and no two slashes meet |
| Locations.AmbiguousExactlyWhen | internal/webproxy/dispatch.go:288-298 | a path is ambiguous if and only if it has a backslash, two slashes in a row, or one or two dots alone between slashes or ends |
| Locations.RewriteLocationPath | internal/webproxy/location.go:12-26 | the URL after the rewrite, or the same URL |
| Locations.RelocatedExactlyWhen | internal/webproxy/location.go:12-26 | a redirect is left alone without stripping, outside the backend's subtree and when its path is ambiguous; otherwise what is behind the backend's path comes behind the frontend's prefix |
| Locations.SentIsUnambiguousExactlyWhen | internal/webproxy/dispatch.go:288-298 | what is sent to the backend is unambiguous if and only if the backend path does not end in an encoded slash |
| Locations.LocationRoundTrip | internal/webproxy/location.go:10-26 | a redirect to the path sent leads back to the path requested (a bare prefix regains its slash), with the same bytes behind the prefix; if and only if the backend path does not end in an encoded slash |
| Locations.EncodedEndIsNotUndone | internal/webproxy/location.go:18-26 | behind the backend http://h/x%2F a request for /a is sent as /x%2F/a, and a redirect to it keeps that path |
| Limiter.RuleLimiter.Allow | internal/webproxy/limiter.go:37-76 | the answer and the new table: pruned when due, room made, the bucket refilled and spent; never more than the maximum |
| Limiter.AdmittedExactlyWhen | internal/webproxy/limiter.go:62-75 | a request is admitted if and only if a whole token is there after refilling up to the burst, and takes it |
| Limiter.ClientsAreSeparate | internal/webproxy/limiter.go:56 | every client has its own bucket for every rule |
| Limiter.RuleLimiter.Prune | internal/webproxy/limiter.go:78-85 | exactly the buckets unseen for ten minutes go |
| Limiter.PrunedExactly | internal/webproxy/limiter.go:78-85 | that is, those last seen before now - 600 seconds |
| Limiter.RuleLimiter.EvictOldest | internal/webproxy/limiter.go:89-106 | one bucket goes, the longest unseen of a sample of the table |
| Limiter.EvictedExactly | internal/webproxy/limiter.go:89-106 | and nobody of the sample has been unseen for longer |
| RateBounds.RateBound | internal/webproxy/limiter.go:37-106 | at most burst + rate * (t - s) requests are admitted from time s to time t, across prunes and evictions of a bucket that has refilled; tokens stay in range |
| RateBounds.OnlyEvictionMatters | internal/webproxy/limiter.go:78-106 | where ten minutes refill any bucket, pruning drops full buckets only: the bound can fail only by the eviction of a bucket that has not refilled |
| RateBounds.SeenIsEvicted | internal/webproxy/limiter.go:53-106 | a bucket seen within ten minutes is dropped only for another key, out of a full table, as the longest unseen of sixty-four |
| RateBounds.DefaultBurstRefills | internal/webproxy/limiter.go:41-48 | with the default burst ten minutes always refill a bucket |
| RateBounds.Serve | internal/webproxy/limiter.go:37-76 | any requests served by the limiter one after the other make a history, with its answers and tables |
| RateBounds.SpacedIsNeverRefused | internal/webproxy/limiter.go:37-76 | requests at least 1 / rate apart are never refused, whatever is pruned or evicted |
| RateBounds.PruningIsUnnoticedExactlyWhen | internal/webproxy/limiter.go:78-85 | dropping idle buckets changes no answer and no bucket afterwards if and only if ten minutes refill any bucket |
| MinuteSeries.SiteSeries.Add | internal/webproxy/stats.go:101-126 | the summary remains that of the full log with the new request |
| MinuteSeries.SumsAreExact | internal/webproxy/stats.go:101-126 | the sums of a minute are the number of its requests and the totals of what they received and delivered |
| MinuteSeries.SiteSeries.Snapshot | internal/webproxy/stats.go:129-150 | one point for each minute, in order, zero where there is none |
| MinuteSeries.SnapshotIsExact | internal/webproxy/stats.go:101-150 | over at most 1440 minutes ending no earlier than the current one, the exact sums of every request ever added |
| MinuteSeries.SiteSeries.View | internal/webproxy/stats.go:229-244 | the view of the last minutes is dense and exact |
| LogRing.EntryRing.Append | internal/logcenter/logcenter.go:62-75 | the ring holds the last `limit` of the entries it held and the new one, in order; that these are the last of the whole log is the invariant of `LogRing.Center` |
| LogRing.Center.Add | internal/logcenter/logcenter.go:244-263 | an entry joins its log, that of accesses exactly when its source is webproxy, with the next number and defaults for level and source; however many have been added, each ring has the last 2000 entries of its log in order |
| LogRing.Center.Find | internal/logcenter/logcenter.go:384-440 | the page of matching entries of one log or of both together, newest first, behind the cursor's entry, out of the last 2000 entries of each log |
| LogEntries.SortedStably | internal/logcenter/logcenter.go:392-396 | both logs together are sorted by time and keep the order of entries of the same time |
| LogEntries.StableSortIsUnique | internal/logcenter/logcenter.go:396 | which leaves one possible order |
| LogEntries.PoolInOrder | internal/logcenter/logcenter.go:384-398 | the order of any two entries in a pool does not depend on what else is in it |
| LogEntries.PoolHolds | internal/logcenter/logcenter.go:384-398 | and it holds each entry of the logs asked for once |
| LogPaging.PagesHaveNoGapsOrRepeats | internal/logcenter/logcenter.go:411-439 | the pages of a walk are the matches present at its first page, without gap or repeat; at the end all of them that are still held |
| LogEntries.PageIsExact | internal/logcenter/logcenter.go:429-439 | a page is as many matches as asked for, or all there are, and a number comes with it exactly when there are more |
| LogPaging.LostCursorStartsOver | internal/logcenter/logcenter.go:417-428 | a cursor whose entry is gone starts from the beginning |
| LogReading.ReadingIsComplete | internal/logcenter/logcenter.go:400-440 | paging through one log or both, while entries come and go, returns nothing twice and only matches, and in the end every match that was held throughout |
| LogReading.Browse | internal/logcenter/logcenter.go:400-440 | a client that follows the cursors while entries arrive gets the answer to each of its cursors, out of the last 2000 entries the logs had at the time; it starts over exactly when a cursor's entry is gone, and since the last time it reads like that; its pages are all one reading if no entry of a cursor is ever gone |
| StateStore.StepKeeps | internal/config/state.go:79-151 | every step keeps the invariant; the generation on disk never goes back |
| StateStore.NothingIsForgotten | internal/config/state.go:79-151 | clean means the file has the state in memory; the file has a state the memory has had; what is dirty is on its way until the store is closed |
| StateStore.WritesNeverGoBack | internal/config/state.go:114-137 | one goroutine writes at a time, never an older state |
| StateProgress.UpdateIsTheNewState | internal/config/state.go:79-99 | an update is the new state, waits to be written and sets the timer |
| StateProgress.FlushWrites | internal/config/state.go:114-151 | a flush or close that nobody disturbs leaves the store clean with the latest state in the file |
| StateProgress.TimerWrites | internal/config/state.go:101-137 | so does the timer |
| StateProgress.FailedWriteIsRetried | internal/config/state.go:101-111 | after a failed write the timer is set again |
| StateProgress.CanBecomeClean | internal/config/state.go:79-151 | from every state the store can become clean, whoever is writing |
| StateProgress.FailedFlushIsReported | internal/config/state.go:114-151 | a failed flush or close leaves the store as it is and is not retried |
| StateProgress.AnythingCanHappen | internal/config/state.go:79-151 | the runs those results are about: updates, flushes and closing at any time, and writes that may fail |
| StateStore.RunningState.Flush | internal/config/state.go:114-137 | with updates arriving during the write: clean only if there were none |
| StateStore.RunningState.FlushAsync | internal/config/state.go:101-111 | after a timer's flush, dirty means the timer is set again |
| HandlerCache.SiteServer.ReverseHandlerFor | internal/webproxy/reverse.go:133-168 | the handler, the remembered failure or the refusal, and the cache afterwards |
| HandlerCache.SiteServer.StaticHandlerFor | internal/webproxy/dispatch.go:258-284 | the same for fixed handlers |
| HandlerCache.SiteServer.UpdateSite | internal/webproxy/server.go:405-442 | handlers of changed and removed rules go, services are prepared, and the reverse handlers that went are returned |
| HandlerCache.NeverStale | internal/webproxy/server.go:391-442 | after any requests and updates every cached handler was built from the rule in force |
| HandlerCache.ServedByItsOwnRule | internal/webproxy/server.go:391-403 | a request is served by a handler of its own rule and only while that rule is in force |
| HandlerCache.UpdateKeepsExactlyUnchanged | internal/webproxy/server.go:418-430 | an update keeps the very handlers of unchanged rules and no others |
| HandlerCache.ServedExactlyWhen | internal/webproxy/reverse.go:133-168 | a request is refused if and only if its rule is not in force, and otherwise served from the cache, failed as remembered, or served by a new handler; the next one gets the same |
| HandlerCache.FixedServedExactlyWhen | internal/webproxy/dispatch.go:258-284 | fixed handlers are served if and only if the rule is in force |
| HandlerCache.UpdateForgetsExactly | internal/webproxy/server.go:418-442 | an update keeps the failures of unchanged rules only, and returns exactly the reverse handlers of the others |
| HandlerCache.UpdatePreparesExactly | internal/webproxy/service_root.go:56-71 | and has fixed handlers for unchanged rules and all enabled WebDAV and CGI rules |
| HandlerCache.NeverStaleExactlyWhen | internal/webproxy/server.go:405-442 | the cache is up to date all through a run if and only if, at the start and at every update, the first service rule of every ID that has no handler yet is the one in force |
| HandlerCache.UpdateIsUpToDateExactlyWhen | internal/webproxy/server.go:418-430 | the same for one update, given the handlers it keeps |
| HandlerCache.UniqueIDsNeverGoStale | internal/webproxy/server.go:391-442 | with unique rule IDs no cached handler is ever stale |
| HandlerCache.StartIsUpToDateExactlyWhen | internal/webproxy/service_root.go:56-71 | a start leaves no stale handler if and only if the first service rule of every ID is the one in force |
| HandlerCache.DuplicateIDsGoStale | internal/webproxy/service_root.go:56-71 | two service rules with one ID: the first one's handler is there while the last is in force |
| RuleIDs.EnsureRuleIDs | internal/webproxy/api.go:894-903 | in place, every rule without an ID or with that of a rule before it gets the drawn one |
| RuleIDs.UniqueExactlyWhen | internal/webproxy/api.go:894-903 | afterwards the IDs are unique if and only if no drawn ID is that of a rule before it |
| RuleIDs.FirstOfEachKeepsItsID | internal/webproxy/api.go:894-903 | with random IDs all are unique, exactly the first rule of every ID keeps its own, and nothing but IDs changes |
| RuleIDs.SavedNeverGoStale | internal/webproxy/api.go:652 | while all sites have been saved through the API no cached handler is ever stale |
| ReloadLoop.Manager.Reload | internal/acme/manager.go:636-649 | refused when stopped, merged when running, otherwise started |
| ReloadLoop.Manager.Decide | internal/acme/manager.go:654-662 | once more exactly when a call is pending and the work is not cancelled |
| ReloadLoop.CallIsAcceptedExactlyWhen | internal/acme/manager.go:636-649 | a call is accepted unless the manager has been stopped, and starts a goroutine if and only if none runs |
| ReloadLoop.StopIsForGood | internal/acme/manager.go:636-664 | once stopped no call is accepted, and once cancelled the goroutine ends with its round |
| ReloadLoop.OneReconciliation | internal/acme/manager.go:636-665 | at most one reconciliation runs at a time |
| ReloadLoop.NoCallIsLost | internal/acme/manager.go:636-665 | at rest every accepted call has been followed by a complete reconciliation begun after it |
| ReloadLoop.ComesToRest | internal/acme/manager.go:650-664 | the goroutine comes to rest after at most two completed rounds, and then every accepted call has been served |
| Stun.DecodeSTUN | internal/ddns/network_source.go:112-150 | the decoded address or the error for every byte string, in bounds and terminating |
| Stun.DecodesMessages | internal/ddns/network_source.go:112-150 | on every well-formed response the decoder finds what the attributes say |
| Stun.AddressRoundTrip | internal/ddns/network_source.go:128-147 | behind unusable attributes an XOR-MAPPED-ADDRESS decodes to exactly the address encoded, an IPv4 address in IPv6 form aside |
| Stun.WireRoundTrip | internal/ddns/network_source.go:112-147 | the bytes of a response with one XOR-MAPPED-ADDRESS, laid out as in section 14.2 of RFC 8489, decode to the address whose bits are flipped where the cookie and the transaction ID have ones |
| Stun.MappedIsAsItIs | internal/ddns/network_source.go:112-147 | a MAPPED-ADDRESS is taken as it is |
| Stun.BadHeaderExactlyWhen | internal/ddns/network_source.go:112-115 | a header is refused if and only if type, length, cookie or transaction ID are not the expected bytes |
| Stun.EveryBodyIsDecoded | internal/ddns/network_source.go:116-149 | what any bytes behind attributes without a usable address come to: the address, or missing, truncated, a bad length or the wrong family |
| Stun.DecodedIsOfTheFamily | internal/ddns/network_source.go:112-147 | an accepted address is of the family asked for and comes with a valid header |

## Left out

- The DNS records, task records and digests of a sync.
- Several edits between interrupted syncs, and any edit between a crash and its retry.
- Ingress and tunnel API calls themselves: a PUT is accepted, lost or unnoticed.
- Scheduler.StaysAboveMinusTotal: only for fixed eligibility; when eligibility changes from pick to pick only the zero sum holds.
- Pools without an admission, handlers without a pool and the proxying of a request once a node has been chosen; the choice of the node in the admission machine is any node of the handler.
- PoolAdmissions.PoolAdmissionFor: runs alone, apart from the removal it waits for; its interleavings with other goroutines are the machine in `Admission`.
- Health probes, cool-down times and failure counts: they are inputs of the choice.
- I/O errors inside recovery, reordering of file operations by the kernel, and damaged journals.
- The install is a machine of steps rather than one method, because a crash, an error or a reload may come between any two of them.
- Locations.LocationRoundTrip: for stripped prefixes; a rule with a rewrite prefix has no inverse in the response mapping.
- Query strings, fragments, hosts and headers of proxied requests and responses.
- RateBounds.RateBound: without evictions of a bucket that has not refilled, since it starts full again; floating-point rounding is not modelled.
- MinuteSeries.SiteSeries.Add: an addition is one step; additions that race with the sealing of a minute are not modelled.
- Clearing the logs, redaction and truncation of messages, files, rotation and streaming of the log; the filter of a query is any predicate.
- Seeding of the running state at migration; the file is replaced as a whole or not at all.
- What the API checks about a site besides the IDs of its rules, and its other changes to them, which keep the IDs.
- Building a handler: whether it succeeds is an input, and the settings of a rule are compared as one value.
- What a reconciliation of certificates does.
- The text form of an address, and the exchange of datagrams with the STUN server.
