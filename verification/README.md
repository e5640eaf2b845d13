# SGS: from a committed workspace to the cluster and the registry

SGS lets users request workspaces and administrators approve them. Approved workspaces are
stored in Postgres, listed by a coalescing worker, and handed as one list to a worker command
that, among other things, reconciles the projects of a Harbor registry. This Dafny 4.11 project
models that path and proves, piece by piece and then end to end, that what administrators
commit is what the registry converges to. `dafny verify dfyconfig.toml` checks all of it.

## How it is put together

| layer | modules | form |
|---|---|---|
| words, order, sorting | `Basics` | functions and lemmas |
| ID codec | `IdCodec` | wrapping loops, an abstract block cipher |
| workspaces and validity | `Model` | datatypes, validity loops |
| the store, simple form | `MapStore`, `StoreRuns`, `StoreLaws` | a map from ID to entry, six operations, invariants over every run, and what a reader can rely on in the words of the inputs |
| the store, in Postgres | `Database`, `WorkspaceScan`, `Postgres` | a class over four tables, row-by-row loops, each method proved equal to the simple form |
| the store, in memory | `Mock` | a class over a map, agreement with the simple form and exactly where it ends |
| pages and handlers | `Preview`, `Controller`, `FormLaws` | what is previewed, committed, enqueued and announced; from the form's fields to the workspace read back |
| what the worker sees | `Projection`, `Worker` | the projected list and which operations can change it |
| the queue | `QueueProtocol` | a transition system with a five-statement listing that commits may interleave with |
| the registry | `HarborSdk`, `HarborApi` | a class whose every call may fail, and may have taken effect when it reports failure |
| the reconciler | `Slices`, `ReconcileSpec`, `SyncOne`, `RunSpec`, `FillSpec`, `Isolation`, `Reconcile` | in-place slice deletion, both loops, whole runs |
| composition | `EndToEnd`, `Convergence`, `Settling` | one turn of the worker as code; store, queue, worker and registry as one transition system, and its way to rest from every reachable state |
| counterexamples | `Witnesses`, `RunWitnesses` | concrete inputs for what the code does not guarantee |

Methods follow the code statement by statement and are proved against specification functions;
the properties are then lemmas about those functions, so that they range over every input, run
or interleaving. Loops whose progress is hard to state carry a ghost sequence of the states they
went through (`IsScan`, `IsFill`), and the invariants are proved about such sequences by induction.

## What the proofs turned up

Each of these is the code's behaviour, kept as it is, with the exact condition proved for all
inputs and a concrete one that fails it.

- A **decline** is committed but not enqueued. At rest, the worker's list is the present one if
  and only if nobody declined on a created workspace since its users were read (`NoLostWakeup`,
  `DeclineGoesUnseen`, `StaleListIsReachable`). The ticker repairs it: from any state at rest a
  tick and an undisturbed run restore the present list (`TickRepairs`), as they do from any
  reachable state once the run under way has ended (`QueueSettles`); and whatever filled the slot,
  two runs after the last visible commit do (`PresentAfterTwoRuns`).
- The **notice about an enabled workspace** is decided from a read before the update. It is the one
  due if and only if nobody flipped the flag in between (`NoticeIsDueIff`): two administrators
  enabling one workspace may both announce it (`SecondNoticeIsReachable`).
- A **request with a quantity above the BIGINT range** is accepted and stored, and can then never
  be approved as it stands (`PreviewIsApproval`, `OversizedRequestIsStuck`, `StuckRequestIsReachable`).
- A **decline by the last member** leaves a stored workspace without users, which `Workspace.Valid`
  rejects; nothing else does (`OnlyLastDeclineEmpties`, `EmptyWorkspaceIsReachable`).
- A stored **empty email** is accepted for the SQL queries and pending for `IsAccepted`; the two
  tests agree exactly when no empty email is stored (`AcceptanceTestsAgreeIffNoEmptyEmail`,
  `EmptyEmailIsReachable`), which non-empty input emails guarantee (`NonEmptyEmailsPersist`).
- A **project whose creation failed half-way** is synced from then on but never gets its robot
  account while it stays wanted: after a run without failures all wanted projects have one if and
  only if those there at the start had one (`RobotsCompleteIff`, `RobotlessIsReachable`,
  `RobotlessForever`).
- On a registry without failures, `runSync` still fails if two wanted workspaces share a name, and
  only then (`ReliableRunFailsIffNamesClash`, `ClashIsReachable`); the codec rules that out for
  lists the worker hands over (`GivenNamesDistinct`).
- The **in-memory service** does not reset `Created`, keeps submitted emails and does not sort the
  initial request: it creates what the production service does exactly for fresh, ordered input,
  such as the controller's (`CreationsAgreeIff`, `CreatedInputIsKept`).

## Reading conventions

A workspace service entry maps each member to `Some(email)` when accepted and `None` while
invited, as the nullable column does. A failed transaction changes nothing, except that the ID
sequence does not roll back. DES is a pair of mutually inverse functions on 64-bit words. The
registry knows a set of users; its member listing returns the ID that deletion takes
(`cmd/sgs-register-harbor/harbor.go:33-37`). Listings stay put while their pages are read, and
nothing but the reconciler changes the prefixed projects. The worker command registers projects
unless it is a dry run, in which the registry is left alone; the statement about the whole system
is about the former. A run that went through is described by a `History`: the states between the
listed projects and those between the creations, each step of which is one of those the run
specification allows.

## Model

| member | source | states |
|---|---|---|
| IdCodec.Hash | model/model.go:26-37 | the digit loop yields 13 base-36 digits, least significant first, of the permuted word |
| IdCodec.HashLenCoversWords | model/model.go:15-18 | 13 base-36 digits are enough for every 64-bit word, and 12 are not |
| IdCodec.DecodeHash | model/model.go:26-58 | the digits of a hash denote the permuted word, and decrypting it gives back the ID |
| IdCodec.HashInjective | model/model.go:26-37 | distinct IDs, negative ones included, have distinct hashes |
| IdCodec.ParseID | model/model.go:39-59 | with accumulator and weight wrapping in 64 bits on input of any length, the loop decodes the string's value modulo 2^64, and the result is the checked decoding |
| IdCodec.ParseAcceptsExactlyHashes | model/model.go:53-58 | a string is accepted if and only if it is the hash of a non-negative ID, and is then parsed to that ID |
| IdCodec.ParseRoundTrip | model/model.go:26-59 | parsing the hash of an ID gives the ID back when it is non-negative and is invalid otherwise |
| Model.QuotaKeysValid | model/workspace.go:46-50 | the loop over a map's keys in any order decides whether all are known resources |
| Model.UpdateValid | model/workspace.go:97-117 | the loops decide exactly: known nodegroup, known resources, at least one user, no user twice |
| Model.WorkspaceValid | model/workspace.go:42-65 | the same for a workspace, and its request, if any, is valid |
| StoreRuns.RunsStayGood | model/postgres/postgres.go:301-409 | in every reachable store: enabled implies created, quota keys and ranges are valid, and a request is valid, sorted, names its own workspace and lists its requester |
| StoreRuns.ApplyKeepsGood | model/postgres/postgres.go:105-499 | every operation, with any arguments, keeps that invariant |
| StoreRuns.ViewIsValidIffInhabited | model/workspace.go:42-65 | a reachable workspace reads back valid if and only if it has a member |
| StoreRuns.OnlyLastDeclineEmpties | model/postgres/postgres.go:482-499 | an inhabited workspace loses its last member exactly by that member declining a pending invitation |
| StoreRuns.NextIDNeverDecreases | model/postgres/postgres.go:112-120 | issued IDs only grow over any run |
| StoreRuns.DeletedStaysDeleted | model/postgres/postgres.go:411-426 | an ID once issued and absent is absent ever after |
| StoreRuns.CreatedLatches | model/postgres/postgres.go:308-309 | a created workspace stays created for as long as it exists, over any run |
| StoreRuns.AcceptanceIsGranted | model/postgres/postgres.go:122-133 | whoever is accepted after a step was so before, or the step is their creation or their own acceptance |
| StoreRuns.AcceptanceProvenance | model/postgres/postgres.go:464-480 | over any run, an accepted member was granted that email at some step and held it at every state since |
| StoreRuns.AcceptanceEndsByUpdate | model/postgres/postgres.go:339-354 | in a surviving workspace an acceptance ends if and only if an update leaves the member out; declining never ends one |
| StoreRuns.AcceptedAfterAbsence | model/postgres/postgres.go:464-480 | over any run, whoever is no member at one point and accepted at a later one was granted it at a step in between |
| StoreRuns.DroppedThenReaddedIsPending | model/postgres/postgres.go:339-354 | over any run, whoever is no member at one point and a member at a later one is invited there, unless granted an acceptance in between |
| StoreRuns.AcceptanceTestsAgreeIffNoEmptyEmail | model/workspace.go:14-17 | testing the shown email and testing for NULL agree for all members if and only if no stored email is empty |
| StoreRuns.NonEmptyEmailsPersist | model/postgres/postgres.go:464-480 | if no operation brings an empty email, none is ever stored |
| StoreRuns.UpdateIgnoresUserOrder | model/postgres/postgres.go:301-368 | an update's effect, errors included, does not depend on the order its users come in |
| StoreRuns.RequestIgnoresUserOrder | model/postgres/postgres.go:370-409 | nor does a stored request |
| StoreLaws.CreatedReadsBack | model/postgres/postgres.go:105-164 | a new workspace reads back with what it was given, not created and not enabled, the first user accepted and the others invited, and with a request by the first user for all of that, enabled |
| StoreLaws.CreateThenApprove | model/workspace.go:67-83 | approving the first request as it stands succeeds and gives the workspace asked for: nodegroup, userdata, quotas and users, created and enabled, nothing pending |
| StoreLaws.UpdatedReadsBack | model/postgres/postgres.go:301-368 | whether or not a request was pending: the update's attributes, exactly its users, those who stay with the email they had, new ones invited, and no request; created if it was or is now enabled |
| StoreLaws.RequestedReadsBack | model/postgres/postgres.go:370-409 | the request is pending as submitted, its users sorted, and nothing else has changed |
| StoreLaws.AcceptedReadsBack | model/postgres/postgres.go:464-480 | the user has the email; every other user, every attribute and a pending request are as they were |
| StoreLaws.DeclinedReadsBack | model/postgres/postgres.go:482-499 | the user is gone; every other user, every attribute and a pending request are as they were |
| StoreLaws.DeletedIsGone | model/postgres/postgres.go:411-426 | the workspace is gone, and every further operation that names it fails |
| StoreLaws.OthersUntouched | model/postgres/postgres.go:105-499 | whatever the operation and its outcome, every workspace but its own is there exactly if it was, and unchanged |
| StoreLaws.FailureChangesNothing | model/postgres/postgres.go:105-499 | an operation that fails changes no workspace |
| StoreLaws.PresenceChanges | model/postgres/postgres.go:105-499 | a workspace disappears exactly by its deletion and appears exactly by a successful creation under the next id |
| StoreLaws.OnlyCreationsIssueIDs | model/postgres/postgres.go:105-164 | only creations use up ids, one each if they reach the table, failed ones included |
| StoreLaws.CreationFails | model/postgres/postgres.go:105-164 | invalid exactly if not well-formed, spelled out; failed exactly if the ids or a quantity exceed 2^63-1 |
| StoreLaws.UpdateFails | model/postgres/postgres.go:301-368 | invalid exactly if not well-formed, not found exactly if well-formed and absent, failed exactly if present with a quantity above 2^63-1 |
| StoreLaws.RequestFails | model/postgres/postgres.go:370-409 | invalid exactly if not well-formed or without a named requester among its users; not found exactly if that one is no member, invited or accepted; never for its quantities |
| StoreLaws.RequestThenApprove | model/postgres/postgres.go:301-409 | requesting a change and approving the request is making the change, errors included |
| StoreLaws.UpdateIsIdempotent | model/postgres/postgres.go:301-368 | making an update again changes nothing and answers the same |
| StoreLaws.LastRequestWins | model/postgres/postgres.go:370-409 | of two requests for one workspace only the later is kept |
| StoreLaws.AcceptMoves | model/postgres/postgres.go:464-480 | an accepted invitation moves from the user's invitations to the user's workspaces, and can be neither accepted nor declined again |
| StoreLaws.DeclineLeaves | model/postgres/postgres.go:482-499 | a declined one leaves the invitations, is in neither listing, and cannot be accepted |
| StoreLaws.ListingReadsBack | model/postgres/workspace_scan.go:23-118 | whatever states the statements of a listing see: each id once, ascending, with its columns, quotas, sorted users and request each from the state its statement saw |
| StoreLaws.CreatedIffEverEnabled | model/postgres/postgres.go:308-309 | over any run, a stored workspace is listed for the worker if and only if some successful update has enabled it |
| WorkspaceScan.OrderIDs | model/postgres/workspace_scan.go:24-24 | the ids selected, each once, ascending |
| WorkspaceScan.FillQuotas | model/postgres/workspace_scan.go:56-75 | through the index, in any row order, every workspace gets exactly its own quota rows and nothing else changes |
| WorkspaceScan.FillUsers | model/postgres/workspace_scan.go:77-96 | appending rows ordered by name gives every workspace exactly its members, sorted, emails coalesced |
| WorkspaceScan.FillRequests | model/postgres/workspace_scan.go:98-118 | every workspace gets its own request with sorted users, or none |
| WorkspaceScan.QueryWorkspaces | model/postgres/workspace_scan.go:23-54 | Ok if and only if the ids are distinct and all present; then one workspace per id in ascending order, each what its own rows say |
| Database.AbstractionOfChange | model/postgres/migrations/000001_init.up.sql:1-27 | tables changed for one workspace only represent the store with that one entry changed |
| Database.AbstractionOfRemoval | model/postgres/migrations/000001_init.up.sql:1-27 | deleting a row with its dependents represents the store without that entry |
| Postgres.UpsertQuotas | model/postgres/postgres.go:327-337 | upserting in any order writes exactly the given quantities and leaves other workspaces alone; it fails if and only if one is out of range |
| Postgres.InsertMembers | model/postgres/postgres.go:122-133 | the first user is inserted with the email, the others as invited |
| Postgres.ReplaceQuotas | model/postgres/postgres.go:317-337 | delete-then-upsert leaves exactly the given quotas |
| Postgres.ReplaceMembers | model/postgres/postgres.go:339-354 | delete-then-insert leaves exactly the given users, those who stay with their acceptance, new ones invited |
| Postgres.TornListingOfTables | model/postgres/postgres.go:226-253 | a listing whose statements see different committed tables is the store-level torn listing |
| Postgres.WorkspacesRepository.constructor | model/postgres/migrations/000001_init.up.sql:1-27 | fresh tables are consistent and represent the empty store |
| Postgres.WorkspacesRepository.QueryWorkspace | model/postgres/workspace_scan.go:15-21 | one workspace, put together from what each of the four statements finds committed, or not found |
| Postgres.WorkspacesRepository.ListAllWorkspaces | model/postgres/postgres.go:166-193 | with each of the five statements on its own committed state: not found if and only if an id selected vanished in between, else the torn listing; on one state, all workspaces, ascending by id |
| Postgres.WorkspacesRepository.ListUserWorkspaces | model/postgres/postgres.go:195-224 | with each of the five statements on its own committed state: not found if and only if an id selected vanished in between, else the torn listing; on one state, exactly those in which the user has accepted |
| Postgres.WorkspacesRepository.ListUserInvitations | model/postgres/postgres.go:428-462 | with each of the five statements on its own committed state: not found if and only if an id selected vanished in between, else the torn listing; on one state, exactly those in which the user is invited; nobody's invitations are an empty list whatever the other statements find |
| Postgres.WorkspacesRepository.ListCreatedWorkspaces | model/postgres/postgres.go:226-253 | with each of five statements on its own committed state: not found if and only if an id vanished in between, else the torn listing |
| Postgres.WorkspacesRepository.GetWorkspace | model/postgres/postgres.go:255-270 | whatever each of the four statements finds, the workspace put together from it, or not found; on one state, the workspace as shown |
| Postgres.WorkspacesRepository.GetUserWorkspace | model/postgres/postgres.go:272-299 | only for users who accepted in the state the first statement finds, else not found; then as above |
| Postgres.WorkspacesRepository.CreateWorkspace | model/postgres/postgres.go:105-164 | running the statements then abstracting is abstracting then creating in the map store, errors included; the workspace returned is the stored one |
| Postgres.WorkspacesRepository.UpdateWorkspace | model/postgres/postgres.go:301-368 | the same for an update |
| Postgres.WorkspacesRepository.RequestUpdateWorkspace | model/postgres/postgres.go:370-409 | the same for a request |
| Postgres.WorkspacesRepository.DeleteWorkspace | model/postgres/postgres.go:411-426 | the same for a deletion |
| Postgres.WorkspacesRepository.AcceptInvitation | model/postgres/postgres.go:464-480 | the same for an acceptance |
| Postgres.WorkspacesRepository.DeclineInvitation | model/postgres/postgres.go:482-499 | the same for a decline |
| Mock.ContainsUser | model/mock/mock.go:13-20 | decides membership by name |
| Mock.UserHasAccepted | model/mock/mock.go:22-30 | decides whether the member is accepted in the entry the workspace stands for |
| Mock.SortUsersOrders | model/mock/mock.go:32-36 | sorting by name orders the users and keeps them the same |
| Mock.ExistingEmails | model/mock/mock.go:216-222 | the map collected in the loop holds exactly the accepted users' emails |
| Mock.CreationsAgreeIff | model/mock/mock.go:73-102 | the new entry is the production one if and only if the input is not created, the email is not empty, no other user brings an email, and users come sorted |
| Mock.CreationsAgree | model/mock/mock.go:73-102 | within the column's range, creating here is creating in the map store if and only if the input is so |
| Mock.MockWorkspaces.CreateWorkspace | model/mock/mock.go:73-102 | the whole new state: exactly one entry is added, under the next id, which was free, and the workspace returned is the stored one |
| Mock.MockWorkspaces.GetWorkspace | model/mock/mock.go:175-184 | the workspace as the map store shows it, or not found |
| Mock.MockWorkspaces.GetUserWorkspace | model/mock/mock.go:186-200 | only for users who accepted |
| Mock.MockWorkspaces.UpdateWorkspace | model/mock/mock.go:202-238 | the map store's update whenever quantities are in range; out of range it stores what the production service refuses |
| Mock.MockWorkspaces.RequestUpdateWorkspace | model/mock/mock.go:240-262 | exactly the map store's request, errors included |
| Mock.MockWorkspaces.DeleteWorkspace | model/mock/mock.go:264-273 | exactly the map store's deletion |
| Preview.WsUpdated | view/workspace.templ:81-105 | the loops fill in the request's attributes and users, with the emails the workspace shows; without a request nothing changes |
| Preview.PreviewIsApproval | view/workspace.templ:81-105 | in a reachable store, approving a pending request succeeds if and only if its quantities are in range, and yields the preview with the request cleared and the workspace created |
| Preview.OversizedRequestIsStuck | model/postgres/postgres.go:370-409 | an out-of-range request is stored and its approval fails |
| Controller.TrimSpaceKeepsText | controller/workspace.go:229-229 | space before and after a text that neither starts nor ends with one is removed, and nothing else |
| Controller.CollectUsers | controller/workspace.go:224-233 | whatever order the form's fields come in, each user is collected as often as fields name them |
| Controller.QuotasOf | controller/workspace.go:214-222 | each quantity field goes to the resource it is the field of, and no other resource is set |
| Controller.NamesUserIff | controller/workspace.go:224-233 | a field names a user if and only if its key is "user-" and anything and its value is more than space |
| Controller.FormValidity | controller/workspace.go:235-237 | the update read from a form is valid if and only if the nodegroup is one of the two, some field names a user, and no two fields name the same one, whatever order they are visited in |
| Controller.HandleRequestWorkspace | controller/workspace.go:90-155 | which form is refused and why; otherwise the store's creation with its answer, and one notice if there are subscribers |
| Controller.HandleUpdateWorkspace | controller/workspace.go:157-282 | whatever other handlers commit between its first read and its update: which operation is run, or which refusal is given, is fixed by path, user, form and that read, a deletion by path and user alone; the operation is applied with the store's answer; the token is set exactly by a successful update or deletion; a notice goes out exactly when an update's flag differs from the one read |
| Controller.NoticeIsDueIff | controller/workspace.go:199-272 | the notice sent is the one due for the flag the update replaced if and only if that flag is still the one read |
| FormLaws.NoticeSays | controller/workspace.go:262-273 | a notice says enabled exactly if the flag read was off and the update's is on, and disabled conversely; there is at most one |
| FormLaws.UpdateFormIsCommitted | controller/workspace.go:204-260 | after a successful update form the workspace reads back with the form's nodegroup, userdata, enabled flag, each quota field under its resource, and exactly the users its fields name, and nothing pending |
| FormLaws.RequestFormIsStored | controller/workspace.go:204-248 | after a successful request form exactly that is pending, for an enabled workspace, by the user, who is a member and among the users named; nothing else has changed |
| FormLaws.OtherWorkspacesUntouched | controller/workspace.go:157-282 | no form changes another workspace; a successful deletion removes its own |
| FormLaws.NewWorkspaceIsAsEntered | controller/workspace.go:114-139 | a requested workspace reads back with its user accepted and a pending request by that user for what was entered |
| Controller.FormDeterminesEffect | controller/workspace.go:224-233 | two operations permitted by one form have the same effect on any store |
| Controller.VisibleChangeIsEnqueued | controller/workspace.go:187-261 | a request that changes what the worker sees succeeded, was enqueued, and was an administrator's |
| Controller.HandleAcceptInvitation | controller/workspace.go:284-301 | succeeds if and only if the path is an id with a pending invitation for the user, who is then accepted with their email; otherwise the page or the invitation is not found and nothing changes |
| Controller.HandleDeclineInvitation | controller/workspace.go:303-320 | succeeds likewise; the invitation is removed |
| Projection.ToVWorkspace | worker/worker.go:41-61 | name, flags, nodegroup and users carry over, the name parses back to the id, and each quota's text, read as a decimal with a binary suffix, denotes the quantity times 2^30 for memory, storage and GPU memory and the bare quantity otherwise |
| Projection.FormatEach | worker/worker.go:50-59 | the loop, in any order, gives every quota its text |
| Projection.QuotasDenote | worker/worker.go:50-59 | what those texts denote |
| Projection.DecimalDenotes | worker/worker.go:50-59 | the decimal text of a quantity denotes that quantity |
| Projection.ToVWorkspaces | worker/worker.go:63-69 | position by position |
| Projection.TornListingRenders | worker/worker.go:41-69 | however torn a listing, the projected list depends only on ids, enabled, nodegroup, quotas and names; requests, emails and userdata never reach the worker |
| Projection.ListingRenders | worker/worker.go:41-69 | an untorn one renders the visible part of the store |
| Projection.RenderingInjective | worker/worker.go:41-69 | equal lists come from equal visible states |
| Projection.QuietSteps | controller/workspace.go:137-294 | creating, requesting and accepting leave the worker's view alone in every reachable state |
| Projection.DeclineShows | model/postgres/postgres.go:482-499 | a decline changes the view if and only if it succeeds on a created workspace, and then by one name |
| Projection.NamesDistinct | model/model.go:26-37 | names tell the workspaces of a reachable store apart |
| Projection.NameParses | model/model.go:39-59 | the name of a stored workspace parses back to its id |
| Worker.Queue.Enqueue | worker/queue.go:34-41 | a token is there afterwards, whether or not one was before |
| Worker.ListForWork | worker/queue.go:72-80 | no list if and only if an id vanished between two statements; else the rendering of what the five statements saw |
| QueueProtocol.AlwaysInvariant | worker/queue.go:34-86 | in every interleaving of commits, enqueues, ticks, listing statements, runs and restarts: something touched since the last take means a token or a handler about to enqueue; otherwise the run under way has seen, or was given, the present |
| QueueProtocol.NoLostWakeup | worker/queue.go:34-86 | at rest after a successful run, Work was last given the created workspaces as they are, with exactly the invitations declined since put back; it is the present list if and only if there are none |
| QueueProtocol.ReadIsListCreated | worker/queue.go:76-80 | the protocol's five statements compute what the service's listing does, and Work is given its projection |
| QueueProtocol.TornListingIsRepaired | model/postgres/postgres.go:226-253 | a stale list handed to Work, or a listing about to fail on a vanished row, implies that another run is requested or will be |
| QueueProtocol.DeclineGoesUnseen | controller/workspace.go:303-320 | from any state at rest, a decline on a created workspace leads to a state at rest with a stale list |
| QueueProtocol.TakesAreRequested | worker/queue.go:35-70 | runs begun plus the waiting token never exceed the requests made, and at most one run is under way |
| QueueProtocol.OneRunPerToken | worker/queue.go:35-41 | over any stretch in which every request finds a token waiting, runs begun plus token stay constant: however many requests a token stands for, it is worth one run |
| QueueProtocol.FreshAfterTwoRuns | worker/queue.go:35-86 | once two runs have ended after the last enqueueing commit, one that listed after it has, and a success means the list is up to date but for declines |
| QueueProtocol.PresentAfterTwoRuns | worker/queue.go:35-86 | once two runs have ended after the last commit the worker can see, declines included, a success means the list is the present one, however runs, statements and requests interleave |
| QueueProtocol.OneRunRests | worker/queue.go:60-86 | an undisturbed run of an idle worker with a token brings the queue to rest with the present list and no declines outstanding |
| QueueProtocol.TickRepairs | worker/queue.go:44-58 | from any state at rest, however stale its list, a tick and an undisturbed run bring the queue back to rest with the present list |
| HarborApi.FetchAll | cmd/sgs-register-harbor/harbor.go:57-78 | against a listing of n items the page loop ends after max(1, ceil(n/10)) requests with the whole list in order, or with a failure |
| HarborApi.ListAllProjects | cmd/sgs-register-harbor/harbor.go:57-78 | every project once, or a failure |
| HarborApi.DeleteOldProject | cmd/sgs-register-harbor/harbor.go:87-125 | the removals issued are the repositories in listed order, then the project, or, on a failure, a prefix of that; on success all of them and the project is gone; whatever fails, a project still there has its old members and robots, and no repository it did not have; no other project changes |
| HarborApi.RepositoriesFirst | cmd/sgs-register-harbor/harbor.go:109-124 | in the removals of a successful deletion every repository comes before the project, which comes last |
| HarborApi.DeleteRepositories | cmd/sgs-register-harbor/harbor.go:109-118 | the loop stops at the first failure having asked for a prefix of the repositories; on success for all, and none is left |
| HarborApi.ListRepositories | cmd/sgs-register-harbor/harbor.go:90-107 | the bare names, prefix trimmed, all of them |
| HarborApi.ListAllMembers | cmd/sgs-register-harbor/harbor.go:127-151 | every member once with its id, or a failure |
| HarborApi.CreateNewMember | cmd/sgs-register-harbor/harbor.go:153-175 | an unknown user or an existing member counts as success; on success a known user is a member |
| HarborApi.DeleteOldMember | cmd/sgs-register-harbor/harbor.go:177-184 | on success exactly that id is gone |
| HarborApi.CreateNewProject | cmd/sgs-register-harbor/harbor.go:80-85 | an existing project is a conflict and untouched; on success it is there |
| HarborApi.CreateNewRobot | cmd/sgs-register-harbor/harbor.go:186-227 | the account can exist although the call failed at a later step; on success it exists |
| Slices.DeleteAt | cmd/sgs-register-harbor/main.go:101-101 | in place: the element is gone, the rest keep their order, the freed slot is cleared, what lies beyond is untouched |
| Slices.Index | cmd/sgs-register-harbor/main.go:130-130 | the first position of the element, or -1 if there is none |
| ReconcileSpec.UsersConserved | cmd/sgs-register-harbor/main.go:125-148 | with multiplicity, every wanted user was matched by a listed member or is left to add |
| ReconcileSpec.NothingLeftOver | cmd/sgs-register-harbor/main.go:125-148 | nobody is left to add if and only if the wanted users are distinct members other than the administrator |
| ReconcileSpec.HasPrefixIff | cmd/sgs-register-harbor/main.go:73-76 | the prefix test accepts exactly the names a workspace's project can have |
| SyncOne.RemoveStrangers | cmd/sgs-register-harbor/main.go:125-141 | the first loop removes exactly unwanted members other than the administrator; the shrunk slice is what is left to add, in the same array, with the freed slots cleared |
| SyncOne.AddMembers | cmd/sgs-register-harbor/main.go:143-148 | the second loop adds only listed known users; on success all of them |
| SyncOne.SyncWorkspace | cmd/sgs-register-harbor/main.go:117-151 | on success the project is in sync, and the user array holds the users no listed member matched, followed by cleared slots; whatever fails, wanted members, the administrator and the robot stay and only wanted known users join; an in-sync project is unchanged, and no changing call is issued to a settled one |
| SyncOne.CreateWorkspace | cmd/sgs-register-harbor/main.go:153-174 | an existing project is left alone; a new one has wanted known members only, and on success all of them and one robot; the changing calls are one if createProject fails, else one per user up to the first that fails, and one for the robot exactly if none did |
| RunSpec.UnmatchedIsUnwanted | cmd/sgs-register-harbor/main.go:78-92 | a listed project that matches nothing left in the shrunk slice matches nothing wanted at all |
| RunSpec.ScanReaches | cmd/sgs-register-harbor/main.go:72-102 | after any number of listed projects: wanted equals attempted plus left with multiplicity, attempts that succeeded are in sync, unvisited projects are untouched, nothing wanted is lost |
| RunSpec.ScanStaysQuiet | cmd/sgs-register-harbor/main.go:72-102 | each attempt was one request, deletions named only unwanted prefixed projects, and a run that starts in step has changed nothing |
| RunSpec.MirrorsKnownIsSettled | cmd/sgs-register-harbor/main.go:125-148 | in step with distinct known users other than the administrator means nothing to do at all |
| FillSpec.FillKeepsAll | cmd/sgs-register-harbor/main.go:105-112 | the same accounting through the loop that creates what is left |
| FillSpec.RunConverges | cmd/sgs-register-harbor/main.go:64-115 | a run without a failed call, from any state, leaves the prefixed projects exactly the wanted ones, each in sync; projects without the prefix are untouched whatever fails |
| FillSpec.RunIsolatesFaults | cmd/sgs-register-harbor/main.go:64-115 | under any pattern of failures every wanted workspace is attempted exactly once, attempts that succeed end in sync, no wanted project or member is lost, new projects are wanted ones, and only unwanted ones are asked to be deleted |
| FillSpec.AttemptsAreSteps | cmd/sgs-register-harbor/main.go:93-112 | each attempt of a run is one step of it and counts as successful exactly if no call failed in that step, whatever failed in others |
| Isolation.UnwantedAreDeleted | cmd/sgs-register-harbor/main.go:82-91 | under any pattern of failures each listed prefixed project nobody wants is asked to be deleted at its turn, and is gone at the end of the run if no call of that deletion failed |
| Isolation.RunAsksForUnwanted | cmd/sgs-register-harbor/main.go:72-102 | of the projects there at the start exactly the prefixed unwanted ones are asked to be deleted |
| Isolation.CreatedHaveRobots | cmd/sgs-register-harbor/main.go:105-112 | a new project whose own creation succeeded has its robot, asked for once, whatever else failed |
| FillSpec.ReliableRunFailsIffNamesClash | cmd/sgs-register-harbor/main.go:105-112 | with no call failing for outside reasons, a run fails if and only if two wanted workspaces share a project |
| FillSpec.RunIsIdempotent | cmd/sgs-register-harbor/main.go:64-115 | from a registry in step, nothing changes whatever fails |
| FillSpec.RunIsSilentIffSettled | cmd/sgs-register-harbor/main.go:64-115 | a run without failures issues no changing call if and only if it starts settled |
| FillSpec.SecondRunIsIdle | cmd/sgs-register-harbor/main.go:64-115 | after a run without failures, another with the same list changes nothing, and issues no changing call if its users are distinct, known and not the administrator |
| FillSpec.RunAsksForRobotsOnce | cmd/sgs-register-harbor/main.go:105-174 | createRobot is called only after a successful createProject of the same project in the run, once at most; wanted projects that were there stay, with the robots they had; without failures each new project has its robot |
| FillSpec.RobotsCompleteIff | cmd/sgs-register-harbor/main.go:168-172 | after a run without failures every wanted project has a robot if and only if the wanted projects there at the start had one |
| Reconcile.IndexOfProject | cmd/sgs-register-harbor/main.go:78-80 | the first wanted workspace with that project name, or -1 if none |
| Reconcile.SyncListed | cmd/sgs-register-harbor/main.go:72-102 | the loop that shrinks the wanted slice in place takes exactly the steps the run specification allows, and reports a failure if and only if a call failed |
| Reconcile.CreateRemaining | cmd/sgs-register-harbor/main.go:105-112 | likewise for the loop over what is left |
| Reconcile.RunSync | cmd/sgs-register-harbor/main.go:64-115 | nil if and only if no call failed; a failed listing changes nothing; otherwise the registry went from before to after by a run as specified, which is returned, so that all of the above holds, fault isolation with its success flags included; in plain terms, whatever fails, projects not called "ws-" and a name are untouched and wanted ones stay, with administrator, robots and wanted members, and on nil there is a project "ws-" and a name exactly for each wanted name, with the wanted members the registry knows |
| Reconcile.Decode | cmd/sgs-register-harbor/main.go:34-41 | the decoded list, with no user array shared between workspaces |
| Reconcile.RunAll | cmd/sgs-register-harbor/main.go:153-174 | over any number of runs, whatever is wanted and whatever fails: no createRobot for a project never created, at most one since its last creation, and a project wanted throughout keeps exactly the robots it has |
| EndToEnd.GivenNamesDistinct | worker/worker.go:41-69 | the list of any run, however torn, names distinct projects |
| EndToEnd.RegistryFollowsStore | worker/queue.go:72-86 | at rest, a registry in step with the last list has exactly one prefixed project per created workspace of the store, and its members are that workspace's, up to declined invitations and users it does not know; that it is in step is Convergence.AlwaysInStep |
| EndToEnd.FollowsByName | worker/worker.go:41-69 | a registry that follows the store has a project "ws-" and a name exactly if the name parses to the id of a created workspace, with that workspace's users for members |
| EndToEnd.Work | deploy/worker-sync.sh:16-20 | templates and their application come first, and if they fail no call reaches the registry; then, unless it is a dry run, success leaves the registry in step with the list; a dry run makes no call; with nothing failing for outside reasons it succeeds exactly if it is a dry run or the names are distinct |
| EndToEnd.RunWorker | worker/queue.go:72-86 | the same for one run |
| EndToEnd.RunOnce | worker/queue.go:60-86 | one turn of the queue's loop, from token and rows to registry, with each of the five statements on tables of its own and a timeout at any point: success means the registry is in step with what they showed, and follows the store if the tables stayed put; with nothing failing it succeeds unless an id vanished |
| Convergence.QueueWithin | worker/queue.go:34-86 | the queue's part of any history of the whole system is a history of the queue |
| Convergence.AlwaysInStep | worker/queue.go:44-86 | in every reachable state of store, queue, worker and registry, runs that failed or were cut off anywhere included: between runs, the last of which succeeded, the registry is in step with the list last given |
| Convergence.AtRestRegistryFollows | worker/queue.go:44-86 | in every such state at rest the registry follows the store: a project "ws-" and a name exactly if the name parses to the id of a created workspace, with its members, up to declines since and users not known |
| Convergence.FinishWork | deploy/worker-sync.sh:16-20 | the worker command as code does what the system assumes of it: it reports success only with the registry in step, on any registry |
| Convergence.FinishReliably | deploy/worker-sync.sh:16-20 | with nothing failing for outside reasons it succeeds on whatever list a reachable state of the queue hands it |
| Settling.QueueSettles | worker/queue.go:34-86 | from every reachable state of the queue, without another commit: the run under way ends, handlers enqueue, a tick, an undisturbed run, and the queue is at rest with the same store, the present list and no declines outstanding |
| Settling.SystemSettles | worker/queue.go:34-86 | from every reachable state of the whole system, without another commit or login, a run that leaves the registry in step with the present list brings it to rest with the registry following the store exactly |
| Settling.Settle | deploy/worker-sync.sh:16-20 | on a registry that fails no call the worker command as code is such a run, wherever earlier runs left the projects |
| Witnesses.InvitationIsReachable | model/postgres/postgres.go:339-354 | a run that ends with a pending invitation on a created workspace |
| Witnesses.StaleListIsReachable | controller/workspace.go:303-320 | hence one of the whole queue that ends at rest with a stale list |
| Witnesses.EmptyWorkspaceIsReachable | model/postgres/postgres.go:482-499 | a run that ends with a stored workspace without members |
| Witnesses.StuckRequestIsReachable | model/postgres/postgres.go:370-409 | a run that ends with a stored request whose approval fails |
| Witnesses.EmptyEmailIsReachable | model/workspace.go:14-17 | a run that ends with a member the queries take as accepted and the model as pending |
| Witnesses.SecondNoticeIsReachable | controller/workspace.go:187-272 | a run and a read before its last update from which the same update announces the workspace again |
| Witnesses.CreatedInputIsKept | model/mock/mock.go:73-102 | an input on which the two services create different entries |
| RunWitnesses.RobotlessIsReachable | cmd/sgs-register-harbor/main.go:153-174 | a run in which the one call for the robot is made and fails, and which ends with a wanted project without it |
| RunWitnesses.RobotlessStays | cmd/sgs-register-harbor/main.go:105-174 | every wanted project that starts a run without a robot ends it without one, failures or not |
| RunWitnesses.RobotlessForever | cmd/sgs-register-harbor/main.go:105-174 | so it does after any number of runs one after the other, as long as it stays wanted |
| RunWitnesses.ClashIsReachable | cmd/sgs-register-harbor/main.go:105-112 | a run with no call failing for outside reasons that fails on two equal wishes |

## Left out

- Write transactions are atomic: interleaving of two writers under READ COMMITTED, row locks and serialization errors are not modelled; the statements of reading transactions, and a handler's read and its update, interleave with commits.
- A commit whose acknowledgement is lost: the handler would report an error without enqueueing, and only the ticker would pick it up.
- The queue's stop: after the context is done no run begins until a restart, which is modelled.
- Postgres itself: SQL, migrations, the pool, and its collation; names are ordered by code point, as Go orders strings.
- JSON and YAML text, and what their encoders do to unusual characters; the decoded values are equal to the encoded ones.
- The difference between nil and empty maps and slices.
- HarborApi.ListAllMembers: the entity id the code reads and the member id deletion takes are one key here.
- Harbor's own behaviour beyond the calls used: project names and member names are unique, and listings do not change while being paged.
- HarborApi.CreateNewRobot: the secret and the service account that follow the robot account are only two steps that can fail; what they write is not modelled.
- HTTP, sessions, login, CSRF, templates and browser scripts; of the pages only the preview of a request is kept, and the status label's case split is left out as a one-branch fact.
- Outgoing mail beyond whether an attempt is made: recipients, bodies and delivery; the mailing list table is a parameter.
- The in-memory service's listings, which sort by id, and its invitation stubs, which do not implement the service.
- Real time and ticker periods: ticks, aborted runs and failing runs are nondeterministic steps, and a run's timeout is a call that fails.
- Users logging in to the registry in the middle of a run: a run sees the users known when it was given its list; between runs they may log in at any time.
- Whether the templates, applied to the cluster before the registry is reconciled, take effect: they either go through or fail the command.
- The runtime wrapper in cmd/sgs-runtime-wrapper and configuration loading.
