# Sandbox pool lifecycle, sandbox provisioning and metadata duplicate scanning

This project is a Dafny model of the core scripts of a GitHub Actions toolkit.
The toolkit runs Salesforce sandbox pools and scans metadata.

The pool's only shared state is the repository's Actions variables. Each variable holds a
JSON sandbox record under a name such as `DOMAIN_BRANCH_<name>_SBX` (CI) or
`..._DEVSBX` (developer). The scripts move each record through these statuses:
`InProgress`, `Available`, `InUse`, `Assigned` and `Expired`.

- **Allocator** (`fetchSandbox.js`):
  - Lists the pool's variables.
  - Reuses the sandbox already bound to the issue, or claims the first free one.
  - Polls once a minute while the bound sandbox is in use, until a deadline.
  - At the deadline it may hand out a sandbox the issue held before that has since expired.
- **Provision watcher** (`checkSandboxStatus.js`):
  - Promotes every `InProgress` sandbox that the provisioner reports as `Completed`.
  - A developer sandbox gets a user and an issue notice, and becomes `Assigned`.
  - A CI sandbox has its users activated and is rewritten as a fresh `Available` record.
- **Expiry sweep** (`expireOldSandboxes.js`):
  - Demotes every pool record that is older than its policy allows to `Expired`.
  - The limit is 24 hours, or 48 hours for an extended record. Immortal records are never demoted.
- **Reclaimer** (`deleteExpiredSandboxes.js`):
  - Deprovisions every `Expired` sandbox.
  - Deletes its variable only once deletion is confirmed.
- **Release handler** (`removeAsssignment.js`):
  - Returns every sandbox bound to an issue to the pool, or expires it.
  - Finding none is an error.
- **Reporter** (`sandboxStatus.js`):
  - Sorts the variables into a developer list and a CI list.
  - Gives each entry a domain and readable timestamps.
- **Provisioner** (`create-sandbox.js`):
  - Requests `count` sandboxes under random nine-digit names.
  - Settles each request once, on the first decisive output of its command.
  - Writes the names of the requests that succeeded.
- **Project creator** (`projectCreator.js`):
  - Parses `name:04t…` package lists.
  - Rewrites the project file's dependencies and package aliases.
- **Duplicate scanner** (`duplicate.js`):
  - Keys every recognised metadata file by its component and by the folder its type directory sits in.
  - Reports components that appear under more than one such folder.

## Modules

- **`Js`**: JavaScript values and their truthiness. It also has the string operations the scripts use: `trim`, `split`/`join`, `endsWith`, `includes` and upper-casing.
- **`Store`**: the variable store.
  - The `VariableStore` class holds a map of records, the listing order, and the set of names whose writes the remote refuses.
  - It supports `Listing`, `Patch` and `Delete`.
- **`Allocator`, `Watcher`, `Expiry`, `Reclaimer`, `Release`, `Reporter`**: one module per lifecycle script.
  - Each script is a method over the store.
  - Each method is proved equal to a pure function of the store it starts from.
  - The script's promises are proved about that function.
- **`Lifecycle`**: how the scripts hand records to one another.
- **`Provisioning`, `ProjectCreator`, `Duplicates`**: the provisioner, the project creator and the duplicate scanner.

Where the prose description of these scripts and their code disagree, the model follows the code:

- The watcher does not write a CI record whose login or user activation fails. The failure is caught and the write is skipped.
- The release handler also rewrites a bound record that is already `Expired`. With `returnBackToPool == "true"` such a record is returned to the pool.
- The allocator claims the first free sandbox in listing order.
- The provisioner looks for the lock message under a misspelt property, `messsage`. Real output chunks lack that property, so a held lock is never treated as success (`Provisioning.LockMessageIgnored`).
- The expiry sweep ignores a pool's desired `count`. Every selected record is expired (`Expiry.SweepExpiresAllSelected`).
- The project creator's `main` returns 1 on error, but the value is discarded. The model reports the error and leaves the project file untouched.

## Model

| member | source | states |
|---|---|---|
| Js.Trim | secondGenPackageInstaller/projectCreator.js:81 | the result is the input with leading and trailing white space removed; its ends are not white space |
| Js.TrimBlank | sandboxStatusReporter/sandboxStatus.js:21 | a name trims to the empty string exactly when every character is white space |
| Js.JoinSplit | checkCISandboxStatus/checkSandboxStatus.js:86-89 | joining the parts of a split with the same separator gives the text back |
| Js.SplitJoin | checkCISandboxStatus/checkSandboxStatus.js:86-89 | splitting a join of separator-free parts gives the parts back |
| Store.Snapshot | removeAssignmentCISandbox/removeAsssignment.js:36-39 | a listing has one entry per name, in store order, with its value and creation instant |
| Store.SnapshotNames | removeAssignmentCISandbox/removeAsssignment.js:36-39 | a listing names every variable of the store |
| Store.Without | checkCISandboxStatus/deleteExpiredSandboxes.js:100 | the order after deletes keeps exactly the names not deleted, and stays duplicate-free |
| Store.WithoutWithout | checkCISandboxStatus/deleteExpiredSandboxes.js:93-106 | deleting one batch after another is deleting both at once |
| Store.VariableStore.Patch | removeAssignmentCISandbox/removeAsssignment.js:15-23 | a write succeeds exactly for an existing, unrefused name; it replaces only that value and keeps its creation instant |
| Store.VariableStore.Delete | checkCISandboxStatus/deleteExpiredSandboxes.js:100 | a delete succeeds exactly for an existing, unrefused name and removes it from the map and the order |
| Allocator.WriteKeyListed | fetchCISandbox/fetchSandbox.js:27 | the key a claim writes is found again by the pool's listing filter exactly when the sandbox name has no underscore |
| Allocator.PoolListing | fetchCISandbox/fetchSandbox.js:25-34 | the pool listing holds exactly the listed variables that match the pool's name pattern |
| Allocator.FirstIndex | fetchCISandbox/fetchSandbox.js:44-78 | the scan stops at the first record meeting the criterion, and no earlier record meets it |
| Allocator.FallbackName | fetchCISandbox/fetchSandbox.js:72-76 | the remembered expired name is non-empty exactly when some scanned record is bound to the issue, expired and named |
| Allocator.ClaimShape | fetchCISandbox/fetchSandbox.js:108-133 | a claim takes an available, active, named record, binds it to the issue as `InUse` under its own key, prefers the issue's own sandbox, and stamps `assignedAt` only on a free one |
| Allocator.WaitFallback | fetchCISandbox/fetchSandbox.js:134-160 | waiting means the issue's sandbox is held; the fallback is a bound expired record listed before it |
| Allocator.NothingMeansUnbound | fetchCISandbox/fetchSandbox.js:161-164 | exit 1 without waiting only when nothing active is bound to the issue and the first free record, if any, has no name |
| Allocator.RoundClockFree | fetchCISandbox/fetchSandbox.js:99 | the clock affects only a claim's `assignedAt`, never which way a round goes |
| Allocator.RerunWaits | fetchCISandbox/fetchSandbox.js:44-71 | after its claim is written, a rerun for the same issue waits and never claims a second sandbox |
| Allocator.Clock.Sleep | fetchCISandbox/fetchSandbox.js:160 | sleeping advances the clock by exactly the interval |
| Allocator.InspectBinding | fetchCISandbox/fetchSandbox.js:56-78 | a record ends the first loop exactly when it is the issue's active `InUse` or `Available` binding; the first bound `Expired` name is remembered |
| Allocator.BindingPass | fetchCISandbox/fetchSandbox.js:44-78 | the first loop finds the issue's first active binding, returns it only if it is `Available`, and remembers the first bound expired name before it |
| Allocator.UnboundPass | fetchCISandbox/fetchSandbox.js:82-105 | the second loop returns the first free record, stamped with the current time |
| Allocator.ExitCode | fetchCISandbox/fetchSandbox.js:133-164 | the exit code is 0 exactly for a claim or a fallback |
| Allocator.FindAvailableSandbox | fetchCISandbox/fetchSandbox.js:3-166 | an empty pool, a claim (written, or a write failure), no free sandbox, or a wait until the deadline followed by a timeout or the fallback; only a claim writes, and only to the claimed key |
| Watcher.FirstEntry | checkCISandboxStatus/checkSandboxStatus.js:64-71 | the first status entry for the sandbox, and no earlier one names it |
| Watcher.LookupStatus | checkCISandboxStatus/checkSandboxStatus.js:140-147 | the status lookup loop returns the first entry's status or the default |
| Watcher.PoolConfigIndexFirst | checkCISandboxStatus/checkSandboxStatus.js:46-53 | the first configuration whose `POOL_BRANCH` occurs in the name, no earlier one matching |
| Watcher.FindPoolConfigFirst | checkCISandboxStatus/checkSandboxStatus.js:46-53 | `findPoolConfig` returns the first matching configuration, or none when no pattern occurs in the name |
| Watcher.ActivationListParts | checkCISandboxStatus/checkSandboxStatus.js:83-97 | the activation list has one entry per configured user, in order, each qualified with `@sandbox` |
| Watcher.DevNoticeContents | checkCISandboxStatus/checkSandboxStatus.js:149-234 | a notice is posted only for a completed sandbox whose login, user creation and comment succeed; it names the sandbox and user, shows the expiry or 15 days, and says "check e-mail" exactly when the reset flag is falsy |
| Watcher.ProcessDevSandbox | checkCISandboxStatus/checkSandboxStatus.js:137-277 | the record is rewritten `Assigned` with a new `createdAt` exactly when the developer outcome is a promotion and the write is accepted |
| Watcher.ProcessReviewSandbox | checkCISandboxStatus/checkSandboxStatus.js:56-135 | the record is replaced by a fresh `Available` record exactly when the CI sandbox is completed, logs in, and its users (if any) activate |
| Watcher.DevPass | checkCISandboxStatus/checkSandboxStatus.js:290-309 | the developer loop promotes exactly the chosen `_DEVSBX` records and posts their notices in listing order |
| Watcher.CiPass | checkCISandboxStatus/checkSandboxStatus.js:314-349 | the CI loop promotes exactly the chosen `_SBX` records of configured pools |
| Watcher.InspectCi | checkCISandboxStatus/checkSandboxStatus.js:327-347 | a CI variable is promoted exactly when its name holds `_SBX`, a pool configuration matches, it is `InProgress`, processing succeeds and the write is accepted |
| Watcher.CheckSandboxStatus | checkCISandboxStatus/checkSandboxStatus.js:280-350 | the whole run equals the developer pass followed by the CI pass over the starting store |
| Watcher.WatchOnlyPromotes | checkCISandboxStatus/checkSandboxStatus.js:280-350 | a record changes only if it was `InProgress`, and then only into a promoted developer or fresh CI record; creation instants are kept |
| Watcher.DevPassIdle | checkCISandboxStatus/checkSandboxStatus.js:290-309 | on the store a run leaves, the developer pass changes nothing |
| Watcher.CiPassIdle | checkCISandboxStatus/checkSandboxStatus.js:314-349 | on the store a run leaves, the CI pass changes nothing |
| Watcher.WatchIdempotent | checkCISandboxStatus/checkSandboxStatus.js:280-350 | a second run with the same answers changes nothing |
| Expiry.ReferenceTime | checkCISandboxStatus/expireOldSandboxes.js:62-73 | age is measured from `assignedAt`, else `createdAt`, else the variable's creation instant |
| Expiry.Selected | checkCISandboxStatus/expireOldSandboxes.js:77-108 | selected exactly when the record is neither `InProgress` nor `Expired`, not immortal, and at least 48 hours old if extended, otherwise 24 |
| Expiry.Matching | checkCISandboxStatus/expireOldSandboxes.js:47-108 | a pool's targets are exactly the listed variables matching its unanchored name pattern that are selected |
| Expiry.ExpireEach | checkCISandboxStatus/expireOldSandboxes.js:120-159 | each target is demoted from its listed value; a refused write is skipped |
| Expiry.Sweep | checkCISandboxStatus/expireOldSandboxes.js:42-160 | the store after the sweep is the starting store with every chosen, unrefused name demoted |
| Expiry.SweepOnlyDemotes | checkCISandboxStatus/expireOldSandboxes.js:134-138 | a changed record becomes exactly its demotion (`Expired`, `isActive: "false"`); `InProgress`, `Expired` and immortal records never change |
| Expiry.SweepExpiresAllSelected | checkCISandboxStatus/expireOldSandboxes.js:111-117 | the desired count is no cap: every selected, unrefused variable ends `Expired` and inactive |
| Expiry.SweepIdempotent | checkCISandboxStatus/expireOldSandboxes.js:42-160 | a second sweep at the same instant changes nothing |
| Reclaimer.DeprovisionSucceeded | checkCISandboxStatus/deleteExpiredSandboxes.js:37-61 | success exactly for parsed output whose error is the "already deleted" error, or which has no error and a truthy `deleted` |
| Reclaimer.ToDeleteExactly | checkCISandboxStatus/deleteExpiredSandboxes.js:86-106 | a name is deleted exactly when a listed variable carries it, is reclaimed and its delete is not refused |
| Reclaimer.ReclaimOne | checkCISandboxStatus/deleteExpiredSandboxes.js:93-106 | a variable is deleted exactly when it is a listed `Expired` record, deprovisioning is confirmed and the delete is accepted |
| Reclaimer.ReclaimAt | checkCISandboxStatus/deleteExpiredSandboxes.js:93-106 | one step of the `forEach` keeps the store equal to the starting store less the names deleted so far |
| Reclaimer.DeleteReclaimed | checkCISandboxStatus/deleteExpiredSandboxes.js:93-106 | the loop removes exactly the names to delete from the map and the order |
| Reclaimer.Reclaim | checkCISandboxStatus/deleteExpiredSandboxes.js:65-106 | a failed listing deletes nothing; otherwise exactly the names to delete are gone |
| Reclaimer.ReclaimOnlyConfirmed | checkCISandboxStatus/deleteExpiredSandboxes.js:86-106 | a variable is deleted exactly when its name holds `_SBX`, it is `Expired`, deprovisioning is confirmed and the delete is not refused |
| Release.Released | removeAssignmentCISandbox/removeAsssignment.js:6-12 | returned: `Available`, active, unbound, stamped now; otherwise `Expired`, inactive, keeping issue and stamp; every other field is kept |
| Release.ExpireTwice | removeAssignmentCISandbox/removeAsssignment.js:58-65 | expiring an already expired record changes nothing |
| Release.RefusedIndex | removeAssignmentCISandbox/removeAsssignment.js:15-23 | the first bound variable whose write is refused, with none before it |
| Release.PrintedEmpty | removeAssignmentCISandbox/removeAsssignment.js:89-91 | nothing is printed exactly when no listed variable is bound to the issue |
| Release.RewriteIfBound | removeAssignmentCISandbox/removeAsssignment.js:48-65 | a bound `_SBX` variable is rewritten into its released form whatever its status; a refused write is reported |
| Release.ReleaseAt | removeAssignmentCISandbox/removeAsssignment.js:47-66 | one variable of the loop: unless its write is refused, the store moves on by exactly that variable's release |
| Release.RewriteListed | removeAssignmentCISandbox/removeAsssignment.js:47-67 | the loop rewrites every bound variable up to the first refused write, where it stops |
| Release.RemoveAssignment | removeAssignmentCISandbox/removeAsssignment.js:3-91 | a failed listing or no binding throws "no sandbox found"; a refused write ends the run after the earlier rewrites; otherwise every bound variable is released and the names are printed |
| Release.ReleaseTouchesOnlyBound | removeAssignmentCISandbox/removeAsssignment.js:47-67 | only variables bound to the issue change, each into its released form |
| Release.ReturnThenNothingFound | removeAssignmentCISandbox/removeAsssignment.js:6-12 | after a return to the pool, a second release for the same issue finds nothing |
| Reporter.KindOf | sandboxStatusReporter/sandboxStatus.js:24-29 | developer exactly for `_DEVSBX` names; CI exactly for `_SBX` names that are not `_DEVSBX` |
| Reporter.DomainIsPrefix | sandboxStatusReporter/sandboxStatus.js:30 | the domain is a prefix of the name |
| Reporter.DomainOfPoolKey | sandboxStatusReporter/sandboxStatus.js:30 | for `DOMAIN_BRANCH_NAME_SBX` with no underscore in branch or name, the domain is `DOMAIN`, including any underscores in it |
| Reporter.EntryOf | sandboxStatusReporter/sandboxStatus.js:40-67 | `requested_at` is the variable's creation instant; only CI entries get `assigned_at`; a truthy `createdAt` is shown in ISO form, or as milliseconds when out of range; a developer entry without one falls back to the variable's creation instant, in listed form; `assigned_at`, when shown, is the ISO form of the record's `assignedAt`; the entry carries the record and the variable name unchanged |
| Reporter.Partition | sandboxStatusReporter/sandboxStatus.js:20-73 | every kept variable lands in exactly one list, and each entry carries its list's type |
| Reporter.Describe | sandboxStatusReporter/sandboxStatus.js:40-67 | it throws exactly for a CI record with a truthy `assignedAt` out of date range; otherwise it builds the entry |
| Reporter.Visit | sandboxStatusReporter/sandboxStatus.js:20-73 | blank and untyped names are skipped; a kept one is appended to its type's list, unless it throws |
| Reporter.VisitAt | sandboxStatusReporter/sandboxStatus.js:20-73 | one variable of the loop extends the two lists exactly as the listing's entries up to it, unless it throws |
| Reporter.Collect | sandboxStatusReporter/sandboxStatus.js:17-74 | the loop stops at the first variable that throws, having collected the lists of everything before it |
| Reporter.GetSandboxStatus | sandboxStatusReporter/sandboxStatus.js:4-92 | an empty listing exits 1; a CI `assignedAt` out of date range fails the report with nothing written; otherwise both lists are written |
| Provisioning.ReadUInt32BE | createCISandboxes/create-sandbox.js:7-12 | four big-endian bytes read as an unsigned 32-bit number |
| Provisioning.NameHasNineDigits | createCISandboxes/create-sandbox.js:7-12 | every generated name lies in [100000000, 999999999] and is written with nine digits |
| Provisioning.DefinitionOf | createCISandboxes/create-sandbox.js:45-60 | auto-activated, described by domain; a `production` source means a developer licence and no source, any other source is cloned; the Apex class only when given and not `"null"` |
| Provisioning.CommandArgs | createCISandboxes/create-sandbox.js:70-101 | the fixed `sf org create sandbox` arguments, `-c source` only when cloning, and `--no-prompt --json` last |
| Provisioning.CloneExactlyFromSource | createCISandboxes/create-sandbox.js:51-101 | the command clones exactly when the source is not `production` |
| Provisioning.Decision | createCISandboxes/create-sandbox.js:105-146 | any error output settles; a close resolves exactly on code 0 or 68; a resolution carries the request's name |
| Provisioning.LockMessageIgnored | createCISandboxes/create-sandbox.js:109 | without the misspelt property, only a clean close (0 or 68) resolves |
| Provisioning.Settle | createCISandboxes/create-sandbox.js:14-31 | the settlement is the decision of the first decisive event |
| Provisioning.FirstWins | createCISandboxes/create-sandbox.js:14-31 | once settled, later events change nothing |
| Provisioning.ClosedIsSettled | createCISandboxes/create-sandbox.js:137-146 | a command that closes has settled its request |
| Provisioning.OnceHandler.ResolveOnce | createCISandboxes/create-sandbox.js:14-31 | resolves only if nothing has settled the handler yet |
| Provisioning.OnceHandler.RejectOnce | createCISandboxes/create-sandbox.js:14-31 | rejects only if nothing has settled the handler yet |
| Provisioning.Dispatch | createCISandboxes/create-sandbox.js:105-146 | one event settles an unsettled handler with its decision and leaves a settled one alone |
| Provisioning.CreateSandbox | createCISandboxes/create-sandbox.js:33-148 | the definition, the arguments, and a settlement equal to that of the first decisive event |
| Provisioning.FulfilledExactly | createCISandboxes/create-sandbox.js:175-179 | a name is kept exactly when its request was resolved with it |
| Provisioning.Settlements | createCISandboxes/create-sandbox.js:162-173 | one settlement per request, of the events of its own command under its own name |
| Provisioning.RequestAll | createCISandboxes/create-sandbox.js:162-173 | the loop makes the `count` requests in order |
| Provisioning.AllSettled | createCISandboxes/create-sandbox.js:175-179 | pending exactly when some request never settled; the names are those fulfilled, in order |
| Provisioning.CreateSandboxes | createCISandboxes/create-sandbox.js:150-182 | a missing source throws; a request that never settles leaves nothing written; otherwise `<domain>.json` holds the fulfilled names |
| Provisioning.WrittenNames | createCISandboxes/create-sandbox.js:175-181 | every written name is the nine-digit name of a request that resolved |
| ProjectCreator.ParseEntryCases | secondGenPackageInstaller/projectCreator.js:80-88 | an entry parses exactly when both trimmed parts are non-empty and the id starts with `04t`; otherwise the format error or the id error, as applicable |
| ProjectCreator.FirstError | secondGenPackageInstaller/projectCreator.js:79-90 | all packages in order when every entry parses; otherwise the first failing entry's error |
| ProjectCreator.EntryResults | secondGenPackageInstaller/projectCreator.js:80-81 | one result per comma-separated entry, in order |
| ProjectCreator.EntryRoundTrip | secondGenPackageInstaller/projectCreator.js:79-90 | a well-formed package's `name:id` parses back to the package |
| ProjectCreator.FormatEntries | secondGenPackageInstaller/projectCreator.js:80-88 | every comma-separated entry of the text form of well-formed packages parses to its package |
| ProjectCreator.ParseFormat | secondGenPackageInstaller/projectCreator.js:79-90 | parsing the text form of a non-empty list of well-formed packages gives the list back |
| ProjectCreator.AliasedKeys | secondGenPackageInstaller/projectCreator.js:65-71 | the alias table holds the old aliases plus the package names |
| ProjectCreator.AliasedKeeps | secondGenPackageInstaller/projectCreator.js:65-71 | an old alias not among the packages keeps its id |
| ProjectCreator.AliasedLastWins | secondGenPackageInstaller/projectCreator.js:65-71 | a package name maps to the id of its last entry |
| ProjectCreator.ProjectFile.AddDependencies | secondGenPackageInstaller/projectCreator.js:48-74 | fills in the package name and version defaults, replaces the dependencies with the package names in order, and adds every package to the alias table |
| ProjectCreator.ProjectFile.AddPackages | secondGenPackageInstaller/projectCreator.js:106-119 | no package string: nothing changes; an unparsable one: the error is reported and the file is untouched; otherwise the dependencies are added |
| Duplicates.ReadPackageDirectories | metadataScanner/duplicate.js:8-16 | exactly the directories with a falsy `aliasfy`, in order, each marked not aliasfy |
| Duplicates.ReadOneDirectory | metadataScanner/duplicate.js:8-16 | one project-file entry gives its own directory, marked not aliasfy, exactly when its `aliasfy` is falsy, and nothing otherwise |
| Duplicates.ReadPackageDirectoriesAppend | metadataScanner/duplicate.js:8-16 | directories come out in project-file order: reading two runs of entries is reading the first and then the second, so nothing is reordered, dropped or repeated |
| Duplicates.IndexOf | metadataScanner/duplicate.js:65 | the first position of the segment, or none when it is absent |
| Duplicates.FolderKeyShape | metadataScanner/duplicate.js:63-70 | the folder key is a prefix of the path made of the path's segments up to the first type-directory segment; it is empty when there is no such segment |
| Duplicates.FolderKeyAt | metadataScanner/duplicate.js:63-70 | cut at the first type-directory segment, the key is a prefix of the path whose segments are the path's up to that one |
| Duplicates.ExtendedKeyStartsWithKey | metadataScanner/duplicate.js:37-45 | the extended key begins with the key and `-path-` |
| Duplicates.FoundOnce | metadataScanner/duplicate.js:47-50 | no extended key is recorded twice in one walk, and every recognised file's extended key is recorded |
| Duplicates.FindFilesInFolder | metadataScanner/duplicate.js:18-61 | the walk records each recognised file whose extended key is new, in walk order |
| Duplicates.Catalogued | metadataScanner/duplicate.js:79-85 | adding files keeps every listed key grouped |
| Duplicates.AddFileConsistent | metadataScanner/duplicate.js:79-85 | adding a file keeps the keys distinct and equal to the grouped keys, with one path per distinct extended key |
| Duplicates.CataloguedConsistent | metadataScanner/duplicate.js:76-93 | the index stays consistent as files are added |
| Duplicates.CataloguedGroups | metadataScanner/duplicate.js:76-93 | a key is grouped exactly when some file carries it, and its group holds exactly those files' extended keys |
| Duplicates.DuplicatesOfMembers | metadataScanner/duplicate.js:95-100 | a key is reported, with its paths, exactly when its group has more than one extended key and more than one path |
| Duplicates.DuplicateExactly | metadataScanner/duplicate.js:72-103 | a component key is reported exactly when its files carry more than one distinct extended key |
| Duplicates.FileIndex.Add | metadataScanner/duplicate.js:79-85 | one file added to `allFiles` in place, as the catalogue function adds it |
| Duplicates.NoNotes | metadataScanner/duplicate.js:87-91 | directories read from the project file are never aliasfy, so no note is produced |
| Duplicates.AddDirectory | metadataScanner/duplicate.js:78-92 | the directory's files are added to the index, with a note for each only when it is aliasfy |
| Duplicates.IndexDirectories | metadataScanner/duplicate.js:76-93 | the index holds every directory's walk, in order |
| Duplicates.SelectDuplicates | metadataScanner/duplicate.js:95-100 | the filter and map over the index in key order |
| Duplicates.CompareDirectoriesAndFindDuplicates | metadataScanner/duplicate.js:72-103 | the duplicates of a consistent index over all files, and the notes |
| Duplicates.ReportShape | metadataScanner/duplicate.js:105-117 | the report starts with its header, and says "no duplicates" and ends exactly when there are none |
| Duplicates.ReportMentions | metadataScanner/duplicate.js:112-115 | the report names every duplicated key and each of its paths |
| Duplicates.AppendPaths | metadataScanner/duplicate.js:114 | the inner `forEach` appends one path line per path, in order |
| Duplicates.AppendBullets | metadataScanner/duplicate.js:112-115 | the outer `forEach` appends each duplicate's bullet line followed by its path lines, in order |
| Duplicates.CreateMarkdownFile | metadataScanner/duplicate.js:105-126 | the content built by the loops is the report |
| Lifecycle.PromotedIsClaimable | checkCISandboxStatus/checkSandboxStatus.js:99-104 | a CI record the watcher promotes is free for the allocator |
| Lifecycle.ClaimedIsBound | fetchCISandbox/fetchSandbox.js:110-114 | a claimed record is the issue's active binding, no longer free, and bound to no other issue |
| Lifecycle.ReturnedIsClaimable | removeAssignmentCISandbox/removeAsssignment.js:6-12 | a claimed sandbox returned to the pool is free again and bound to no issue |
| Lifecycle.ExpiredOnRelease | removeAssignmentCISandbox/removeAsssignment.js:6-12 | a claimed sandbox expired on release becomes the issue's fallback; the sweep skips it, and the reclaimer takes it once deprovisioning is confirmed |
| Lifecycle.DemotedIsReclaimable | checkCISandboxStatus/expireOldSandboxes.js:134-138 | a demoted record is no longer handed out, and the reclaimer takes it once deprovisioning is confirmed |

## Left out

- Concurrency: each script runs alone. Races between two allocators, or between a script and the watcher, are not modelled. While the allocator waits the store does not change, so a wait always ends at the deadline.
- The `gh`, `sf` and `sfp` command lines, the GitHub issue and comment API, and JSON parsing and printing are left out. The model keeps only what each call answers:
  - listings, accepted or refused writes and deletes;
  - statuses, logins, created users and activation results;
  - deprovisioner output;
  - the events a provisioning command emits.
- Logging to stdout and stderr is left out, except the names that scripts print as their result.
- The allocator's clock advances only through its one-minute sleeps. The time spent listing and writing is not modelled.
- `timeoutMinutes` is an integer. A non-numeric argument, which makes the deadline `NaN`, is left out.
- Upper-casing covers ASCII letters only. Unicode case mapping is left out.
- Pool names and branches are compared literally. Regular-expression metacharacters in a pool or branch name are not interpreted.
- `toISOString` is abstracted as a `Stamp` value, and its text is not modelled. Only its range limit is kept: an instant more than 8.64e15 ms from the epoch throws.
- `Number.parseInt` of numbers written in exponent form is not modelled. Timestamps are integers.
- The provisioner's `count` is given as the number it compares as. The random bytes are parameters.
- Writing `<domain>.json`, the metadata report, the definition files and the project file is left out, as is deleting the definition files. The model returns their contents.
- The project creator's `generateProject` (`sf project generate`) is not part of this model. The project file is given as a `ProjectFile` object.
- JSON key order is not modelled. `packageAliases` is a map.
- The duplicate scanner's directory walk is flattened to the sequence of files it visits. The metadata resolver is abstracted as an optional `Component` per file; a file it does not recognise, or on which it throws, has none.
- Keys iterate in the order `Object.entries` gives. That is insertion order, because no key is an integer: every key contains `-`.
- Watcher.CheckSandboxStatus: the whole pass takes one instant `now`. The script reads the clock again for each record it promotes, so records promoted in one run all get the same `createdAt` here.
- Expiry.Sweep: the whole sweep takes one instant `now`. The script reads the clock again for each record, and a second time for an immortal or extended one, so a record whose age crosses a threshold between two of those reads is not modelled.
- The refresh-front-door-URL, lock and unlock scripts, and the bundled `dist/` copy of the provisioner, are not part of this model.
