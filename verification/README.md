# Proofs about idpbuilder

A Dafny model of the parts of idpbuilder whose correctness rests on loops, shared state or whole runs, and proofs of
what they promise. `dafny verify dfyconfig.toml` checks everything. Input and output are explicit state: a file tree,
a store of API objects, a lock table, or a script of answers that a foreign command will give.

**The snapshot cache** (`Options`, `Text`, `FileTree`, `RegularFiles`, `CacheSpec`, `SnapshotCache`, `CacheTheorems`).
A sync keeps a cached worktree equal to the snapshot of the stacks repository by deleting what is stale, copying what
differs and pruning empty directories. `CacheSpec` says without these steps what the tree must be, and `SnapshotCache`
proves that the steps reach it. The exact mirror holds for regular files; with symbolic links it holds exactly when no
regular file is to be copied over a link. What stops a reconcile, such as a link listed where the cache holds a file,
stops all later ones too.

**The bootstrap rewrite** (`BootstrapRewrite`, `BootstrapRuns`). With rewriting on, a sync skips the files whose
source and cache hashes are both remembered. The main theorem compares every completed sync of every run with the
plain procedure it speeds up: wipe, copy everything, rewrite everything. It is stated for contents, under three
assumptions: hashes are injective, hashes are never empty, and a rewrite with new pins absorbs an earlier one. A sync
reads the live source worktree when it plans, again when it copies, again in the rewrite script and again when it
saves the hashes after the push, and the run may edit it at each of these moments. The two procedures agree exactly
when every skipped input is in date: the content last copied for it renders as the present one does. From this follow
the exact condition on a save under which the saved hashes tell the truth, and that with such saves only the pins can
be out of date; a snapshot that holds the pins file is then always right. `EditDuringSyncGoesStale` and
`UntrackedPinsGoStale` are runs in which one of the two conditions fails and every later sync keeps the old content.

**The planner** (`RepoPaths`, `Repository`, `DependencyWalk`, `AffectedPlan`, `Refresh`). A depth-first walk over
kustomizations that may refer to each other in cycles fills an index, a plan of affected applications is made from it,
and the refresh protocol carries it out root first. The plan is proved equal to a statement about reachability in the
repository, and the order of the protocol is proved over the log of everything asked for and seen.

**Package priority** (`PackagePriority`, `RepositoryOwner`). One controller creates and deletes packages by priority,
another decides who may act and who owns a git repository. The result of a pass is independent of its order exactly
when no winning declaration shares its generated name with another application.

**Concurrency** (`RepoLocks`, `RepoDeadlock`, `InstallerChannel`). The per-URL mutexes shared by three controllers,
and the installers that report on one channel, as state machines over any number of threads and any interleaving.

**The rest**: `Watch` (the debounced watch loop), `OverrideMerge` (override manifests merged into embedded ones),
`ScpRemote` (SCP-style locations), `HelmValues` (URLs inside Helm values), `KindConfig` (completing a kind
configuration).

Where a promise of the code or its comments does not hold as it stands, the model follows the code and a lemma gives
the case: `CacheTheorems.LinkAndFileDoNotSwap`, `CacheTheorems.EditOfReadOnlyFileBlocks`,
`BootstrapRuns.EditDuringSyncGoesStale` (an edit made while git pushes is remembered as if it had been copied),
`BootstrapRuns.UntrackedPinsGoStale`, `PackagePriority.NamesCanCollide`, `PackagePriority.FileDeletesDirectory` (the
comment on processing packages in reverse order promises more than the order gives),
`RepositoryOwner.DeletedOwnerMayBeReplacedFromBelow`, `Watch.EditDuringSyncIsAbsorbed`,
`OverrideMerge.SharedIdentifierReplaces`, `ScpRemote.SlashIsLost`, `ScpRemote.EmptyUserIsLost`,
`ScpRemote.DecodedDelimitersMislead`, `KindConfig.PortMappedTwiceIff`. Beside each stands the condition under which
the promise does hold.

## Model

| member | source | states |
|---|---|---|
| `SnapshotCache.Cache.ReconcileCacheWorktree` | pkg/cmd/stacks/sync.go:797-821 | Unless a file is written through a link: it succeeds exactly when every listed path is in the source, can be opened and has nothing in its way, and leaves the tree that has the listed files as in the source, the other wanted files as they were, the directories these need, `.git` as it was and nothing else; it returns exactly the deleted and the copied paths, sorted. When it fails, each blocked file or link is left as it was, and the same reconcile is blocked again. On success the listed files mirror the source if and only if no regular file was to be copied over a symbolic link. |
| `SnapshotCache.Cache.RemoveStaleCachePaths` | pkg/cmd/stacks/sync.go:823-865 | Exactly the paths outside `.git` that are neither unwanted files, wanted directories nor inside a wanted directory remain; the topmost removed paths are returned. |
| `SnapshotCache.Cache.CacheDirs` | pkg/cmd/stacks/sync.go:868-894 | All directories outside `.git`, ordered by path length. |
| `SnapshotCache.Cache.RemoveEmptyCacheDirs` | pkg/cmd/stacks/sync.go:867-910 | Outside `.git` exactly the directories with a file somewhere below them remain, and no file is removed. |
| `SnapshotCache.EmptyWhenReached` | pkg/cmd/stacks/sync.go:894-907 | When, by decreasing path length, the turn of a directory comes, it has an entry left if and only if it had a file somewhere below it. |
| `SnapshotCache.TopWhenReached` | pkg/cmd/stacks/sync.go:823-865 | A stale path that is still there when the walk reaches it has no stale directory above it, so what is reported is the top of what is removed. |
| `SnapshotCache.Cache.SnapshotPathMatches` | pkg/cmd/stacks/sync.go:912-960 | Yes exactly for equal link targets or equal content and permission; a yes also copies the modification time; an error exactly when the source path is missing, or both files must be opened to be compared and cannot be read. |
| `SnapshotCache.Cache.CopySnapshotPath` | pkg/cmd/stacks/sync.go:1120-1157 | Succeeds exactly when the source exists and can be read, its parent directories can be made and what is in the way is a writable regular file to be replaced by a regular file; then the path is as in the source. A file that is copied onto a link goes to where the link leads, and nothing else changes. |
| `SnapshotCache.Cache.CopyOne` | pkg/cmd/stacks/sync.go:806-816 | A path that matches is left alone, any other is copied; what the round leaves, reports and when it fails. |
| `SnapshotCache.Cache.CopyFiles` | pkg/cmd/stacks/sync.go:806-816 | The loop succeeds exactly when every listed path can be copied, and has then laid all of them over the cleaned tree and collected exactly those that differed. |
| `CacheSpec.StagesReconcile` | pkg/cmd/stacks/sync.go:797-821 | Deleting stale paths, copying and pruning together give the tree described without these steps. |
| `CacheSpec.AfterStaleIsClean` | pkg/cmd/stacks/sync.go:823-865 | After the deletion no file is in the way of a wanted directory and no directory in the way of a wanted file, and `.git` is untouched. |
| `FileTree.InGitIff` | pkg/cmd/stacks/sync.go:832-838 | Git owns `.git` and what lies below it, and nothing else: neither `.gitignore` nor `.github`. |
| `FileTree.OwnerBits` | pkg/cmd/stacks/sync.go:1137-1141 | Of a mode the owner may read with digit 4 and more, and write with 2, 3, 6 and 7. |
| `CacheTheorems.ReconciledTreeIs` | pkg/cmd/stacks/sync.go:797-821 | The reconciled tree told path by path: at or below `.git` all is as it was; a listed path is as in the source; another wanted path is there exactly if the cache had a file or link there, and as it was; every other path is a directory with a wanted path below it. |
| `SnapshotCache.CopyableIff` | pkg/cmd/stacks/sync.go:806-816 | What a reconcile needs of each listed path: it is in the source; a file there may be read, and a differing file in the cache may be written; a link there finds nothing, a directory or the same link. |
| `CacheTheorems.IncrementalIsFromScratch` | pkg/cmd/stacks/sync.go:797-821 | Reconciling all wanted files gives what wiping the worktree and copying everything gives, plus the old `.git`: of the old worktree nothing else matters. |
| `CacheTheorems.SecondReconcileIsIdle` | pkg/cmd/stacks/sync.go:797-821 | A second reconcile with the same lists changes nothing and reports nothing. |
| `CacheTheorems.TouchedCoversChanges` | pkg/cmd/stacks/sync.go:797-821 | Each file that appeared, disappeared or changed is reported, or a path above it is. |
| `CacheTheorems.OnlyChangesAreTouched` | pkg/cmd/stacks/sync.go:797-821 | Each reported path was a directory that is gone, or a file that appeared, disappeared or changed. |
| `CacheTheorems.ReconciledIsClean` | pkg/cmd/stacks/sync.go:797-821 | The reconciled tree is well formed, and its files are exactly the listed ones and the wanted ones that were kept. |
| `SnapshotCache.StaysBlocked` | pkg/cmd/stacks/sync.go:806-816 | What blocked a reconcile blocks the next one: a missing or unreadable source, a link in place of something else, a differing file that may not be written. |
| `CacheTheorems.EditOfReadOnlyFileBlocks` | pkg/cmd/stacks/sync.go:1137-1145 | A file that its owner may not write can be brought over once; after its next edit every reconcile that lists it is blocked. |
| `CacheTheorems.BlockedForEver` | pkg/cmd/stacks/sync.go:797-821 | A path in the cache that stops a reconcile stays as it is and stops every later one, whatever else is edited and whether git resets the worktree in between or not, until it is edited itself. |
| `CacheTheorems.LinkAndFileDoNotSwap` | pkg/cmd/stacks/sync.go:1130-1142 | A file that replaces a link is written through the link; a link that replaces a file stops the reconcile that lists it and all that follow. |
| `RegularFiles.RegularFilesEqual` | pkg/cmd/stacks/sync.go:1169-1202 | Answers yes if and only if both contents are equal and both readers cut them at the same places, however they cut; an error exactly when a read fails before a difference shows or both reach their end. |
| `RegularFiles.FullReadsAreReads` | pkg/cmd/stacks/sync.go:1181-1200 | Reads that fill the buffer are possible reads, and two readers of one content that do so cut it alike, so they never hide equality. |
| `RegularFiles.ChunkingCanHideEquality` | pkg/cmd/stacks/sync.go:1184-1188 | Some readers cut one content differently, so the answer no alone proves nothing. |
| `Text.SortedUniqueStrings` | pkg/cmd/stacks/sync.go:988-996 | The non-empty values, each once, in order. |
| `Text.SortedKeys` | pkg/cmd/stacks/sync_planner.go:419-426 | All keys, each once, in order. |
| `Text.SortedIsUnique` | pkg/cmd/stacks/sync_planner.go:419-426 | A sorted list is determined by its elements, so what is built from a map does not depend on the order of iteration. |
| `Text.LessIff` | pkg/cmd/stacks/sync.go:988-996 | The order is that of the first place where two texts differ; of two that agree up to the end of one the shorter is less. |
| `BootstrapRewrite.PlanCacheReconcileFiles` | pkg/cmd/stacks/sync.go:697-730 | Fails exactly when rewriting is on and a rewrite input cannot be hashed where it must be; otherwise lists exactly the files that are no rewrite input or whose two hashes are not both the remembered ones, and forces the rewrite exactly when a rewrite input is among them. |
| `BootstrapRewrite.Consider` | pkg/cmd/stacks/sync.go:707-728 | One file of the plan: error, skip or reconcile, each under its exact condition. |
| `BootstrapRewrite.SyncCache.ShouldRewriteBootstrapImagePins` | pkg/cmd/stacks/sync.go:962-977 | Yes exactly when a touched path is a rewrite input. |
| `BootstrapRewrite.SyncCache.SaveBootstrapRewriteMetadata` | pkg/cmd/stacks/sync.go:753-782 | Afterwards the remembered hashes are those of all rewrite inputs now, or the old ones when an input is unreadable or nothing was written, or none when the write was torn. |
| `BootstrapRewrite.SyncCache.Bring` | pkg/cmd/stacks/sync.go:519-535 | Succeeds exactly when nothing that must be hashed is unreadable, no file to copy is blocked and a rewrite that is due succeeds; then the worktree is the reconciled tree, rewritten if the plan or the touched paths ask for it. |
| `BootstrapRewrite.SyncCache.PushSnapshotToRemote` | pkg/cmd/stacks/sync.go:507-574 | Every call, with any step failing and the source worktree edited between the plan, the copy and the save, is exactly a step of the run model: when it gets through, what it pushes, which hashes it remembers (those of the source after the push) and which outcome it reports. |
| `BootstrapRewrite.PlainSyncSucceeds` | pkg/cmd/stacks/sync.go:507-535 | Where every listed path is a readable file in the source, and in the cache is absent or a readable and writable file, planning, copying and rewriting succeed unless the script fails. |
| `BootstrapRewrite.UnreadableStops` | pkg/cmd/stacks/sync.go:707-716 | A listed input that is missing or unreadable when it is planned stops every sync with rewriting; any other listed path that is missing or unreadable when it is copied stops every sync. |
| `BootstrapRewrite.RewriteIsDueIff` | pkg/cmd/stacks/sync.go:527-531 | With rewriting on, the rewrite is due if and only if a listed input is not skippable, or an input that is no longer listed still lies in the cache. |
| `BootstrapRewrite.PushedContent` | pkg/cmd/stacks/sync.go:519-535 | With sound metadata every file of the snapshot, skipped or not, ends as the source content copied for it, in this sync or an earlier one, rendered with the present pins if the rewrite is due and with the remembered ones if not. |
| `BootstrapRewrite.PushedIsFromScratchIff` | pkg/cmd/stacks/sync.go:507-574 | With sound metadata the incremental sync and the sync that wipes, copies and rewrites everything have the same paths and contents if and only if, for each skipped input, the content last copied renders with the pins pushed as the present content does with the present pins. |
| `BootstrapRewrite.PlainPushIsFromScratch` | pkg/cmd/stacks/sync.go:697-700 | Without rewriting the two trees are equal. |
| `BootstrapRuns.SavedIsSound` | pkg/cmd/stacks/sync.go:753-782 | What a sync saves is sound again, for the pins that it pushed and the contents that it copied, whatever the source has become by then. |
| `BootstrapRuns.StepStaysSound` | pkg/cmd/stacks/sync.go:507-574 | A sync from sound metadata, whatever it lists, however it ends and whoever edits meanwhile, leaves sound ones. |
| `BootstrapRuns.StepIsFaithfulIff` | pkg/cmd/stacks/sync.go:507-574 | From sound metadata a completed sync leaves the from-scratch tree if and only if it did not rewrite or all inputs that it skipped are in date. |
| `BootstrapRuns.MetadataStaysSound` | pkg/cmd/stacks/sync.go:697-782 | Over every run from no metadata, with source edits at any moment, any worktree found, the pins listed or not and any failures, the cache files behind the metadata before each sync are the contents last copied, rendered with the pins of the last sync that rewrote and saved. |
| `BootstrapRuns.PushIsFromScratchIff` | pkg/cmd/stacks/sync.go:507-574 | Over every such run a completed sync leaves what wiping, copying and rewriting would have left if and only if it did not rewrite or, for each input that it skipped, the content last copied renders with the pins pushed as the present content does with the present pins. |
| `BootstrapRuns.SavedIsSourcedIff` | pkg/cmd/stacks/sync.go:753-782 | What a sync saves describes its sources, each remembered source content being one whose rendering the cache holds, if and only if every input found at the save renders as the content that was copied, and the pins file found then holds the pins pushed. |
| `BootstrapRuns.MetadataStaySourced` | pkg/cmd/stacks/sync.go:697-782 | If that holds for every sync of a run that replaced the metadata, the metadata before each sync describe their sources. |
| `BootstrapRuns.EveryPushIsFromScratch` | pkg/cmd/stacks/sync.go:507-574 | When moreover the inputs are copied as the plan saw them, the sync is the from-scratch one if and only if the rewrite was due or the remembered pins render every listed kustomization as the present ones do; with the pins file in its own snapshot, read by the script as it was copied, it always is. |
| `BootstrapRuns.StillSyncsAgree` | pkg/cmd/stacks/sync.go:507-574 | The condition on the saves holds in every run in which nobody edits a rewrite input during a sync that saves. |
| `BootstrapRuns.LaterSyncsAreFaithfulIff` | pkg/cmd/stacks/sync.go:507-574 | A kustomization copied as one content and saved as another, and then synced any number of times without further edits, with the pins file tracked and unchanged or not tracked: each later sync leaves the pushed tree as it is, and is the from-scratch one if and only if the old pins make of the copied content what the new pins make of the saved one. |
| `BootstrapRuns.EditDuringSyncGoesStale` | pkg/cmd/stacks/sync.go:545-572 | So with tracked and unchanged pins an edit that comes while a sync pushes is lost: no later sync brings it over until the file is edited again. |
| `BootstrapRuns.UntrackedPinsGoStale` | pkg/cmd/stacks/sync.go:707-729 | And with a pins file outside the snapshot, new pins are never noticed, even if nobody edits during a sync. |
| `BootstrapRuns.ActiveKustomizationIff` | pkg/cmd/stacks/sync.go:971-986 | In the directory of the manifests and in every directory below it, the files that are rewritten are those of the three names. |
| `BootstrapRuns.AssumptionsCanBeMet` | pkg/cmd/stacks/sync.go:788-795 | Some hash and some rewrite satisfy all assumptions, and the rewrite depends on the pins and on the content. |
| `BootstrapRuns.SomeKustomizationsGoStale` | pkg/cmd/stacks/sync.go:507-574 | Hence both kinds of run exist, for a kustomization in every such directory. |
| `RepoPaths.CleanRepoRelAccepts` | pkg/cmd/stacks/sync_planner.go:363-369 | A path is accepted if and only if it is relative, no prefix of it climbs above the root and it ends below the root; the result has as many names as the path is deep, no `.` or `..`, and is its own cleaned form. |
| `RepoPaths.ReferenceLeadsTo` | pkg/cmd/stacks/sync_planner.go:371-374 | A reference that goes up some directories and then down by names leads, from a directory, to the names left of its own with those names behind them. |
| `RepoPaths.DetoursAreIgnored` | pkg/cmd/stacks/sync_planner.go:363-369 | Empty parts, `.`, and a name followed by `..` make no difference anywhere in a path. |
| `RepoPaths.TrimSpaceSplits` | pkg/cmd/stacks/sync_planner.go:364 | Trimming takes all white space at both ends and nothing else. |
| `Repository.FindsFirstName` | pkg/cmd/stacks/sync_planner.go:327-335 | The first of the three kustomization names that is a file in the directory, in their order; none exactly when none is. |
| `Repository.IsManifestNameIff` | pkg/cmd/stacks/sync_planner.go:260-263 | A manifest is a file whose name has, after its last dot and in any case, one of the three extensions. |
| `Repository.SkippedRefs` | pkg/cmd/stacks/sync_planner.go:318-325 | The references left alone are the blank ones, those with `://` or `::` anywhere, and those that begin with `github.com/` or `git@`. |
| `Repository.ReachableIff` | pkg/cmd/stacks/sync_planner.go:194-249 | Reached is the start, and what is reached from where a reference of the start leads. |
| `DependencyWalk.Walk.AddKustomizeDependencies` | pkg/cmd/stacks/sync_planner.go:194-249 | On success everything newly visited is reachable and closed under references; on failure some reachable place is missing, unreadable or has a reference that leaves the repository. It ends on every finite repository, cyclic or not: the kustomization files not yet seen get fewer. |
| `DependencyWalk.Walk.AddReferences` | pkg/cmd/stacks/sync_planner.go:234-247 | The same for the loop over the references of one kustomization. |
| `DependencyWalk.Walk.FollowReference` | pkg/cmd/stacks/sync_planner.go:237-246 | The same for one reference. |
| `DependencyWalk.Walk.AddManifestDirectoryDependencies` | pkg/cmd/stacks/sync_planner.go:251-275 | Succeeds exactly when every directory at or below the place can be listed; then the place counts as visited. |
| `DependencyWalk.Walk.CollectManifests` | pkg/cmd/stacks/sync_planner.go:251-275 | Adds exactly the manifests below the directory and exactly the applications they define. |
| `AffectedPlan.WalkIsReachability` | pkg/cmd/stacks/sync_planner.go:194-249 | What a completed walk has visited is exactly what is reachable from its start, and all of it is readable and inside the repository. |
| `AffectedPlan.IndexSource` | pkg/cmd/stacks/sync_planner.go:185-188 | A source is indexed if and only if everything reachable from it is good; then exactly its reachable files and the applications these define are added. |
| `AffectedPlan.FileSource` | pkg/cmd/stacks/sync_planner.go:203-209 | A source that is a file can be indexed, and depends on that file and the application it defines. |
| `AffectedPlan.DirectorySource` | pkg/cmd/stacks/sync_planner.go:210-213 | A source that is a directory without a kustomization can be indexed exactly when all directories in it can be listed, and depends on the manifests below it and the applications they define. |
| `AffectedPlan.OverlaySource` | pkg/cmd/stacks/sync_planner.go:210-247 | A source that is a directory whose kustomization refers to files can be indexed, and depends on the kustomization, the files its references lead to and the applications these define. |
| `AffectedPlan.BrokenReferenceStops` | pkg/cmd/stacks/sync_planner.go:238-246 | A reference out of the repository or to what is not there stops the indexing of every source that leads to it. |
| `AffectedPlan.IndexApp` | pkg/cmd/stacks/sync_planner.go:174-188 | The same over all sources of an application, blank ones skipped. |
| `AffectedPlan.BuildApplicationDependencyIndex` | pkg/cmd/stacks/sync_planner.go:168-192 | Fails exactly when a named application has a source that cannot be indexed; otherwise each name is described by the last application that bears it. |
| `AffectedPlan.LastNamedIff` | pkg/cmd/stacks/sync_planner.go:190 | Of applications with one name the last one of the list counts. |
| `AffectedPlan.NormalizeChangedFiles` | pkg/cmd/stacks/sync_planner.go:376-385 | The accepted paths in cleaned form, each once, in order. |
| `AffectedPlan.MatchFile` | pkg/cmd/stacks/sync_planner.go:119-147 | Exactly the indexed applications that the file affects. |
| `AffectedPlan.PlanFromIndex` | pkg/cmd/stacks/sync_planner.go:116-165 | The affected names sorted, the files that affect nothing in order, and the flags drawn from the index. |
| `AffectedPlan.Flags` | pkg/cmd/stacks/sync_planner.go:156-164 | In order, exactly the names without automated sync, and exactly those whose status is known and not synced. |
| `AffectedPlan.PlanAffectedApplications` | pkg/cmd/stacks/sync_planner.go:111-166 | A plan is made exactly when every named application can be indexed. |
| `AffectedPlan.PlanMeansReachability` | pkg/cmd/stacks/sync_planner.go:111-166 | An application is in the plan if and only if a changed file is reachable from its sources, defines it, defines one of its children, or is an overlay path and the application is the root: stated on the repository alone. |
| `AffectedPlan.ConcernsIff` | pkg/cmd/stacks/sync_planner.go:119-147 | What it is to concern an application, in terms of the repository: the file is one its sources depend on, defines it or one of its children, or lies in the ryzen overlay while the application is the root. |
| `AffectedPlan.SkippedOrConcerning` | pkg/cmd/stacks/sync_planner.go:119-148 | A changed file is listed as skipped if and only if it concerns no application. |
| `AffectedPlan.UnmatchedIsSorted` | pkg/cmd/stacks/sync_planner.go:145-147 | The skipped files keep the order of the changed ones. |
| `AffectedPlan.PlanFlagsMean` | pkg/cmd/stacks/sync_planner.go:156-164 | The manual and the unsynced applications of a plan, told from the applications themselves. |
| `AffectedPlan.PlanIsDetermined` | pkg/cmd/stacks/sync_planner.go:111-166 | Two plans for the same applications and files are equal, whatever order the maps were iterated in. |
| `Refresh.Session.RefreshAfterSync` | pkg/cmd/stacks/sync.go:120-214 | With the root selected no child is refreshed before the root was refreshed and observed at the commit, and none if that fails. In affected mode success means that the refreshed applications are the affected ones and at most the root more; in all mode likewise with all applications; every refreshed one was, after its refresh, seen at the commit and not running; and the result holds the skipped files of the last plan, its manual applications and exactly the applications that were seen not synced. A run of either mode succeeds if and only if the first listing can be used; in case it selects the root, that is accepted and seen and the second listing can be used; and all children selected are accepted and seen. The applications asked, also by a run that fails, are exactly those its listings select up to there. |
| `Refresh.Session.RefreshAffected` | pkg/cmd/stacks/sync.go:168-210 | The same for the affected mode, with the plan made again after the root stage. |
| `Refresh.Session.RefreshAll` | pkg/cmd/stacks/sync.go:124-166 | The same for the mode that refreshes all applications. |
| `Refresh.Session.RunsWell` | pkg/cmd/stacks/sync.go:120-214 | In either mode a run succeeds when both listings can be used, every refresh is accepted and the first two polls show all that is selected. |
| `Refresh.Session.SucceedsNeeds` | pkg/cmd/stacks/sync.go:120-214 | And it succeeds only with usable listings, an accepted refresh of the root, if selected, and of everything else the last listing selects, and, where there is a commit, polls that show all of them. |
| `Refresh.Session.DoneIs` | pkg/cmd/stacks/sync.go:120-214 | What a successful run has refreshed and reports, name by name: all that the last listing selects, and besides it the root, or in all mode what the first listing named. |
| `Refresh.Session.UsableIff` | pkg/cmd/stacks/sync.go:168-176 | A listing can be used when it is answered and, to plan for it, all sources of its named applications lead only to what exists, can be read and lies inside the repository. |
| `Refresh.OrderMeans` | pkg/cmd/stacks/sync.go:181-204 | Before a child is asked, an accepted refresh of the root was followed by an observation that shows the root at the commit with no operation running. |
| `Refresh.SeenMeans` | pkg/cmd/stacks/sync_planner.go:451-496 | To be seen after a refresh is to be in a later observation, at the commit and with no operation running. |
| `Refresh.RecordedIs` | pkg/cmd/stacks/sync_planner.go:111-166 | What a result of the affected mode says: the applications a changed file concerns, the changed files that concern none, and which of those applications have no automated sync. |
| `Refresh.Session.UnsyncedIs` | pkg/cmd/stacks/sync_planner.go:682-691 | The unsynced applications of a result are those an observation of the run shows with a status that is known and not synced. |
| `Refresh.Session.RefreshRoot` | pkg/cmd/stacks/sync.go:181-189 | The root stage: refreshes only the root, succeeds exactly when that is accepted and seen, and then has it observed at the commit. |
| `Refresh.Session.RefreshChildren` | pkg/cmd/stacks/sync.go:200-210 | Refreshes everything selected except the root, succeeds exactly when all of it is accepted and seen, and keeps the order. |
| `Refresh.Session.RefreshAndWait` | pkg/cmd/stacks/sync.go:204-210 | Asks for every named refresh in order, and waits only when all were accepted; succeeds exactly when all were accepted and the wait is answered, and then each was, after its refresh, seen at the commit. |
| `Refresh.Session.RefreshApplications` | pkg/cmd/stacks/sync.go:1293-1301 | Asks for every name in order even after a failure, uses one answer for each, and succeeds exactly when all these exist and accept. |
| `Refresh.Session.WaitForApplicationsObserved` | pkg/cmd/stacks/sync_planner.go:451-496 | Succeeds exactly when a poll shows every name present, not running and at a matching revision, and no poll before it fails, shows the commit superseded or ends the wait; it returns the names that poll shows not synced, and waits for nothing without names or commit. |
| `Refresh.Session.WillBeSeenIff` | pkg/cmd/stacks/sync_planner.go:451-496 | Without names or commit nothing is waited for; otherwise the wait ends well if and only if some poll shows every application, and every poll before it is answered and neither superseded, expired nor cancelled. |
| `Refresh.Session.AcceptsIff` | pkg/cmd/stacks/sync.go:1293-1301 | A list of refreshes is accepted when the answers to all of it exist and none is no. |
| `Refresh.Session.PendingApplications` | pkg/cmd/stacks/sync_planner.go:463-478 | Nothing is pending exactly when every name was seen at the commit. |
| `Refresh.RevisionMatchesIff` | pkg/cmd/stacks/sync_planner.go:653-657 | Of two trimmed revisions one must be a beginning of the other, so that those of one length match only when equal, and blank ones match nothing. |
| `Refresh.SeenIff` | pkg/cmd/stacks/sync_planner.go:463-478 | A listed application is seen when no operation runs on it and its revision, or one of its revisions, matches. |
| `Refresh.Session.UnsyncedApplications` | pkg/cmd/stacks/sync_planner.go:682-691 | Exactly the listed names whose status is known and not synced. |
| `Refresh.Session.StackApplicationNamesFromList` | pkg/cmd/stacks/sync.go:1315-1323 | The non-empty names, each once, in order. |
| `Refresh.Session.ApplyPlan` | pkg/cmd/stacks/sync.go:168-176 | The first plan is made exactly when the listing answers and can be planned; the result then names exactly its concerned applications. |
| `Refresh.Session.ReplacePlan` | pkg/cmd/stacks/sync.go:190-198 | The plan made after the root stage, under the same condition on the next listing, replaces the first in the result. |
| `Refresh.Session.WaitAndRecord` | pkg/cmd/stacks/sync.go:208-210 | Waits as above and adds exactly the names seen not synced to the result. |
| `Refresh.Session.RootStage` | pkg/cmd/stacks/sync.go:180-199 | The root is refreshed and observed before the plan is made again; the stage fails exactly when one of these does. |
| `Refresh.Session.SelectApplications` | pkg/cmd/stacks/sync.go:167-199 | When the children are reached and what holds then: a recorded plan of the last listing, at most the root refreshed, and that observed whenever the root is selected. |
| `Refresh.Session.ListNames` | pkg/cmd/stacks/sync.go:125-130 | Names exactly when the listing answers; those of the listing just taken, in order, are added to the affected applications. |
| `Refresh.PlanLists` | pkg/cmd/stacks/sync_planner.go:111-166 | The names of a plan are exactly the concerned applications of the listing. |
| `PackagePriority.Api.ReconcileCustomPkg` | pkg/controllers/localbuild/controller.go:438-553 | When a stored package of the application has a higher priority nothing is stored; otherwise all lower ones are gone and the declaration is stored under its name. Where the stored packages of each application share one priority, nothing is deleted in vain, in any iteration order. |
| `PackagePriority.AfterIs` | pkg/controllers/localbuild/controller.go:466-553 | One declaration, name by name: with a higher annotated package of its application nothing happens; otherwise its name holds its application, priority and source, annotated lower packages of its application are gone from all other names, and the rest stays. |
| `PackagePriority.PackageNameIs` | pkg/controllers/localbuild/controller.go:948-951 | The name is the file name up to the first dot, in lower case, a dash and the application. |
| `PackagePriority.Api.ReconcileAll` | pkg/controllers/localbuild/controller.go:438-553 | A list of declarations has the effect of folding the single steps, and one priority per application is kept. |
| `PackagePriority.ReconcileArgoApps` | pkg/controllers/localbuild/controller.go:251-275 | Directories, then files, then URLs, each from the last to the first with its position as priority. |
| `PackagePriority.ReconcilePlaces` | pkg/controllers/localbuild/controller.go:251-259 | One such list. |
| `PackagePriority.DescendingHolds` | pkg/controllers/localbuild/controller.go:251-259 | What place number `i` of a list declares gets priority `i` and comes, in its order, after all that later places declare. |
| `PackagePriority.TopIsMaximum` | pkg/controllers/localbuild/controller.go:472-500 | The top priority of an application is reached by a declaration and exceeded by none. |
| `PackagePriority.EveryOrderSettles` | pkg/controllers/localbuild/controller.go:438-553 | From an empty store every order of the declarations leaves, for each application, exactly the names declared at its top priority, all carrying it. |
| `PackagePriority.LastWinnerIsStored` | pkg/controllers/localbuild/controller.go:510-553 | Of declarations at the top priority with one generated name, the last in the order is stored, with its source. |
| `PackagePriority.OrderDoesNotMatter` | pkg/controllers/localbuild/controller.go:438-553 | Any two orders leave the same names with the same applications and priorities. |
| `PackagePriority.SettlesInEveryOrderIff` | pkg/controllers/localbuild/controller.go:948-951 | This holds in every order if and only if no declaration at the top priority of its application shares its generated name with a declaration of another application. |
| `PackagePriority.NamesCanCollide` | pkg/controllers/localbuild/controller.go:948-951 | Different files and applications can generate one name. |
| `PackagePriority.RepeatedPassIsIdle` | pkg/controllers/localbuild/controller.go:438-553 | Passing over declarations again, in any order and number, changes no name, application or priority and deletes nothing. |
| `PackagePriority.DeletionNeedsRise` | pkg/controllers/localbuild/controller.go:472-500 | A declaration deletes a stored package only if an earlier one of its application has a lower priority. |
| `PackagePriority.DeletesIffRises` | pkg/controllers/localbuild/controller.go:472-500 | With the names of winners apart, a declaration deletes something if and only if its application was declared before and it outranks all those declarations. |
| `PackagePriority.DeletesNothingIff` | pkg/controllers/localbuild/controller.go:438-553 | With the names of applications apart, a pass deletes nothing if and only if the first declaration of every application has its top priority. |
| `PackagePriority.OneApplicationDeletesNothingIff` | pkg/controllers/localbuild/controller.go:438-553 | For one application: a pass deletes nothing if and only if no declaration outranks the first. |
| `PackagePriority.ReverseOrderDeletesNothingIff` | pkg/controllers/localbuild/controller.go:249-275 | The order of the controller creates nothing only to delete it again if and only if, for every application, the first of the lists of directories, files and URLs that has it gives it its highest position. |
| `PackagePriority.OneListDeletesNothing` | pkg/controllers/localbuild/controller.go:249-259 | A single list taken from its end deletes nothing, whatever the names. |
| `PackagePriority.FileDeletesDirectory` | pkg/controllers/localbuild/controller.go:251-267 | For any application in a directory at position 0 and a file at position 1, the package of the directory is created and then deleted. |
| `PackagePriority.Api.ShouldReconcile` | pkg/controllers/custompackage/controller.go:141-195 | A package may act exactly when it has no priority or no other package of its application has a higher one. |
| `PackagePriority.MayReconcileIff` | pkg/controllers/custompackage/controller.go:141-195 | A package without a priority may always act; another may unless a different annotated package of its application has a higher priority. |
| `PackagePriority.SurvivorsMayReconcile` | pkg/controllers/custompackage/controller.go:141-195 | Every package left by a settled pass may act. |
| `PackagePriority.NoTwoRanksReconcile` | pkg/controllers/custompackage/controller.go:141-195 | Packages of one application that may both act have the same priority, in any store. |
| `RepositoryOwner.Controller.ShouldTakeOverGitRepository` | pkg/controllers/custompackage/controller.go:77-137 | Yes exactly without own priority, without an owning package, with one that is gone or has no priority, or with a strictly lower one. |
| `RepositoryOwner.OwningPackageIff` | pkg/controllers/custompackage/controller.go:84-107 | The owning package is the first reference to a package, wherever it stands among the references. |
| `RepositoryOwner.Controller.ReconcileSource` | pkg/controllers/custompackage/controller.go:461-534 | A package that may act and take over becomes the only owning package and writes its content; in every other case, and when the library refuses, nothing changes. |
| `RepositoryOwner.OwnerChangesIff` | pkg/controllers/custompackage/controller.go:461-611 | In any store: a package becomes the owner if and only if it exists and may act, the library sets it, and the repository does not exist, has no owning package, or has one that is displaced, being gone, without priority or strictly lower, or met by a package without priority. Then the repository holds its content and keeps its other references, and nothing else changes; otherwise nothing changes at all. |
| `RepositoryOwner.OnlyPackagesAreDropped` | pkg/controllers/custompackage/controller.go:536-611 | References to other kinds of owners are kept, in their order, and only those to packages go. |
| `RepositoryOwner.ExistsIffClaimed` | pkg/controllers/custompackage/controller.go:461-534 | From no repositories, over every run, a repository exists if and only if some package that existed and could act at its reconcile was set on it, and then it has an owner and holds the content of that owner. |
| `RepositoryOwner.RunKeepsRank` | pkg/controllers/custompackage/controller.go:461-611 | Over every run each repository holds the content of its owner. |
| `RepositoryOwner.OwnerRankNeverFalls` | pkg/controllers/custompackage/controller.go:77-137 | Over every run in which no owner is deleted while it owns the repository, the priority of the owner never falls and rises with every change. |
| `RepositoryOwner.NothingDeletedNothingFalls` | pkg/controllers/custompackage/controller.go:77-137 | In a run without deletions a repository whose content is its owner keeps having its owner as content, and the priority never falls. |
| `RepositoryOwner.OwnerRankFallsIff` | pkg/controllers/custompackage/controller.go:77-137 | A reconcile lowers the priority of the owner if and only if the owner has been deleted and a package of lower priority that may act is set in its place. |
| `RepositoryOwner.DeletedOwnerMayBeReplacedFromBelow` | pkg/controllers/custompackage/controller.go:95-99 | A run in which this happens. |
| `RepoLocks.RepoMap.LoadOrStore` | pkg/util/git_repository.go:27-30 | A stored URL keeps its mutex, and the mutex returned is that of no other URL. |
| `RepoLocks.StepKeepsInv` | pkg/controllers/gitrepository/controller.go:288-350 | Every step of every thread keeps the invariant: mutexes are never shared between URLs, each locked one is held by one thread, and a thread holds its source before its target. |
| `RepoLocks.TakesNextLock` | pkg/controllers/gitrepository/controller.go:237-317 | A reconcile that is not held up takes the lock of its next URL, works only when it holds all of them, and then lets go. |
| `RepoLocks.FailureLetsGo` | pkg/controllers/gitrepository/controller.go:293-317 | A copy that fails between its two locks gives back the first one and is done. |
| `RepoLocks.AtMostOneHolder` | pkg/util/git_repository.go:23-41 | In every reachable state of any number of threads each URL has at most one holder. |
| `RepoDeadlock.DeadlockIffCycle` | pkg/controllers/gitrepository/controller.go:288-350 | Some interleaving deadlocks if and only if the copying threads can be arranged in a cycle in which the target of each is the source of the next and the sources differ. |
| `RepoDeadlock.DeadlockNeedsCycle` | pkg/controllers/gitrepository/controller.go:293-317 | A deadlocked group in a reachable state contains such a cycle. |
| `RepoDeadlock.CycleDeadlocks` | pkg/controllers/gitrepository/controller.go:293-317 | Such a cycle has an interleaving that deadlocks. |
| `RepoDeadlock.SourcesApartNoDeadlock` | pkg/controllers/gitrepository/controller.go:237-350 | When no source URL is a target URL no reachable state is deadlocked. |
| `RepoDeadlock.OneWayCopiesNoDeadlock` | pkg/controllers/gitrepository/controller.go:237-350 | So reconciles of single repositories, with copies out of some URLs into others only, cannot deadlock. |
| `RepoDeadlock.OppositeCopiesDeadlock` | pkg/controllers/gitrepository/controller.go:293-317 | Two copies in opposite directions can. |
| `RepoDeadlock.SomeoneCanMove` | pkg/controllers/gitrepository/controller.go:237-350 | Without a cycle, as long as a thread is unfinished, some thread is not blocked and its step changes the state. |
| `RepoDeadlock.EveryStepCounts` | pkg/controllers/gitrepository/controller.go:237-350 | Every step that changes anything brings its thread nearer to the end and leaves the others where they are. |
| `RepoDeadlock.AllCanEnd` | pkg/controllers/gitrepository/controller.go:237-350 | Without a cycle, from every moment of every run all reconciles can end, and then nothing is locked. |
| `RepoDeadlock.DeadlockStays` | pkg/controllers/gitrepository/controller.go:288-350 | A deadlock is never left. |
| `InstallerChannel.StepKeepsInv` | pkg/controllers/localbuild/controller.go:155-180 | Every step keeps: each error of a failed installer is in the channel or was received, once; the channel is closed only after all have returned; nothing is sent on the closed channel. |
| `InstallerChannel.NoSenderBlocks` | pkg/controllers/localbuild/controller.go:89-91 | With one place for each installer none ever waits to send, whether the receiver is there or not. |
| `InstallerChannel.NothingPanics` | pkg/controllers/localbuild/controller.go:155-180 | A send on the closed channel would panic, and no reachable state has seen one. |
| `InstallerChannel.SticksIff` | pkg/controllers/localbuild/controller.go:89-95 | An installer can be blocked with nobody left to receive if and only if the channel has fewer places than there are installers. |
| `InstallerChannel.StuckForEver` | pkg/controllers/localbuild/controller.go:89-95 | From there it stays blocked in every continuation. |
| `InstallerChannel.ProceedsOnlyAfterSuccess` | pkg/controllers/localbuild/controller.go:93-102 | Reconciliation goes past the installation only when every installer has returned without an error; a received error is one of a failed installer. |
| `InstallerChannel.FirstErrorIsReceived` | pkg/controllers/localbuild/controller.go:93-102 | The error that is received is the one that was sent first, and all others are still in the channel. |
| `InstallerChannel.EveryMoveCounts` | pkg/controllers/localbuild/controller.go:155-180 | Every event that changes anything brings the end nearer, so every run ends. |
| `InstallerChannel.EndsClosed` | pkg/controllers/localbuild/controller.go:155-180 | With one place for each installer the end has all installers returned, the channel closed and the receiver released. Unless it left on its own, the receiver has then seen the close if and only if no installer failed. |
| `Watch.WatchAndSync` | pkg/cmd/stacks/root.go:537-602 | What the loop does turn by turn is a run of the state machine; it ends early exactly on a failed hash or a cancelled context. |
| `Watch.PendingIsTheUnsyncedHash` | pkg/cmd/stacks/root.go:561-571 | Between polls the pending hash is the one last seen, unless that is the synced one; so it is never the synced one. |
| `Watch.SyncsExactlyWhenDue` | pkg/cmd/stacks/root.go:561-576 | The sync is called if and only if the tree is not as last synced, was seen unchanged since the turn that detected the change or failed to sync it, with no turn in between doing anything, and the debounce time has passed since that turn. The turn then is a failed one exactly if the sync fails, and otherwise takes over the hash read after it. |
| `Watch.FailuresAreSinceLastSync` | pkg/cmd/stacks/root.go:551-588 | The failures counted are those since the last sync that succeeded. |
| `Watch.PendingIsStable` | pkg/cmd/stacks/root.go:566-574 | While a change is pending every poll since `lastChange` saw it. |
| `Watch.FailedSyncIsRetried` | pkg/cmd/stacks/root.go:572-582 | After a failed sync, while the tree stays as it is, the state stays and the next sync comes exactly with the first poll a debounce time later. |
| `Watch.EditDuringSyncIsAbsorbed` | pkg/cmd/stacks/root.go:583-588 | An edit made while a sync runs is taken for synced, and any other is noticed at once: after a sync all turns are idle if and only if every poll sees the hash taken right after that sync. |
| `OverrideMerge.ConvertYamlToObjectsWithOverride` | pkg/k8s/deserialize.go:58-134 | Fails exactly when something does not parse or the merged result has an object unknown to the scheme; otherwise the files are the originals with the first object of each overridden identifier replaced, and one more file when overrides are left over; the objects are those of the files, in order. |
| `OverrideMerge.ConvertibleIff` | pkg/k8s/deserialize.go:58-137 | It succeeds if and only if all input parses, and the scheme knows every original that is not replaced and the last override of every identifier; replaced originals and superseded overrides may be unknown. |
| `OverrideMerge.FlatHolds` | pkg/k8s/deserialize.go:100-105 | The objects are returned in the order of the files and, in each file, of its objects. |
| `OverrideMerge.MergeOne` | pkg/k8s/deserialize.go:85-92 | One object: it gives way to the override with its identifier unless the identifier was seen before, and that override is used up. |
| `OverrideMerge.MergeFile` | pkg/k8s/deserialize.go:84-93 | One file: each object whose identifier is overridden and comes for the first time is replaced, the others stay. |
| `OverrideMerge.CollectExtra` | pkg/k8s/deserialize.go:109-117 | The overrides left over, in input order. |
| `OverrideMerge.IndexOverrides` | pkg/k8s/deserialize.go:65-72 | By identifier the last override with it; and all identifiers in input order. |
| `OverrideMerge.EachUsedOnceIffDistinct` | pkg/k8s/deserialize.go:65-134 | Every override is written to exactly one place if and only if the identifiers of the overrides are distinct. |
| `OverrideMerge.ExtraInOrder` | pkg/k8s/deserialize.go:109-117 | With distinct identifiers the extra file lists exactly the overrides that replace nothing, in input order. |
| `OverrideMerge.ObjectCount` | pkg/k8s/deserialize.go:74-131 | There are as many objects as before and one more for each override that replaces nothing, and one file more exactly when there are such. |
| `OverrideMerge.IdentifiersArePreserved` | pkg/k8s/deserialize.go:84-93 | Every object keeps its place and its identifier. |
| `OverrideMerge.MergeIsIdempotent` | pkg/k8s/deserialize.go:58-134 | Merging the same overrides into the result changes nothing. |
| `OverrideMerge.KeepsKeysIff` | pkg/k8s/deserialize.go:84-93 | For a set of objects, every choice of files and overrides from it is merged without replacing an object by one of another version, kind, namespace or name if and only if no two of the objects share an identifier and differ in one of these. |
| `OverrideMerge.SharedIdentifierIff` | pkg/k8s/deserialize.go:136-138 | Two objects share an identifier without being the same if and only if what ends the first of version, kind, namespace and name in which they differ begins what follows that field in the other. |
| `OverrideMerge.SharedIdentifierReplaces` | pkg/k8s/deserialize.go:136-138 | Where two objects share an identifier, each takes the place of the other when given as an override. |
| `ScpRemote.KustomizeRemote.ParseSCPStyle` | pkg/util/url.go:147-170 | The outcome and, on success, the four parts that the location means. |
| `ScpRemote.KustomizeRemote.ParseAuthority` | pkg/util/url.go:154-158 | User and host are what is before and after the first `@`, or all is host. |
| `ScpRemote.KustomizeRemote.ParsePath` | pkg/util/url.go:172-182 | Fails exactly without `//`; otherwise the parts around the first one, a leading and a trailing slash cut off. |
| `ScpRemote.CloneUrlTellsApart` | pkg/util/url.go:47-72 | Two remotes with a scheme, where the decoded user holds no colon or slash and the decoded password no slash, have one clone URL only if they agree in scheme, user, repository path and host with port, in the password where there is a user, and in host and port each where hosts hold no colon. |
| `ScpRemote.DecodedDelimitersMislead` | pkg/util/url.go:47-72 | Otherwise not: a colon in the user reads as the start of a password, a slash in it as the end of the host, and a password without a user is lost. |
| `ScpRemote.ParsedIsTidy` | pkg/util/url.go:147-182 | Parsed parts hold no stray delimiters: none of `:`, `@`, `?` in the user, no `:` or `?` in the host, no `?` in the paths, no `//` in the repository path and no slash at its ends. |
| `ScpRemote.PrintedMeans` | pkg/util/url.go:47-76 | What the printed form of tidy parts parses to. |
| `ScpRemote.QueryIsApart` | pkg/util/url.go:160-169 | Whatever follows the first `?` of a location leaves user, host and paths as they are. |
| `ScpRemote.IsSchemeNameIff` | pkg/util/url.go:124-131 | What stands before the colon is a scheme name, as section 3.1 of RFC 3986 has it, exactly if it is a letter followed by letters, digits, plus, minus and dot. |
| `ScpRemote.RoundTripIff` | pkg/util/url.go:147-182 | Printing and parsing by the SCP parser gives the same parts if and only if the file path does not end in a slash and a host with an `@` has a user before it. |
| `ScpRemote.DispatchedRoundTripIff` | pkg/util/url.go:124-131 | Of a location that reaches the SCP parser, the printed form reaches it again and means the same if and only if moreover a location without user has a host that is neither empty nor a scheme name. |
| `ScpRemote.SlashIsLost` | pkg/util/url.go:172-182 | A location with two trailing slashes loses one at each round. |
| `ScpRemote.EmptyUserIsLost` | pkg/util/url.go:154-158 | A location with an empty user is read with the `@` gone. |
| `ScpRemote.OutOfRangeIff` | pkg/util/url.go:164-169 | A slice is out of range if and only if the query parses and a `?` comes before the first `:`. |
| `ScpRemote.DispatchKeepsInRange` | pkg/util/url.go:124-131 | A location that reaches the SCP parser has its colon and never comes to such a slice. |
| `HelmValues.ReconcileHelmValueObjectSource` | pkg/controllers/custompackage/controller.go:664-698 | Fails exactly when some string with the scheme, at any depth, cannot be resolved; otherwise the result is, place by place, the value rewritten. |
| `HelmValues.ReconcileFields` | pkg/controllers/custompackage/controller.go:677-685 | The same for an object, in whatever order its keys come. |
| `HelmValues.ReconcileItems` | pkg/controllers/custompackage/controller.go:686-694 | The same for a list. |
| `HelmValues.HelmSource.ReconcileHelmValueObject` | pkg/controllers/custompackage/controller.go:637-662 | The stored values are rewritten on success and unchanged on every error. |
| `HelmValues.RewritableIff` | pkg/controllers/custompackage/controller.go:664-698 | A value has a rewritten form if and only if no string in it fails to resolve. |
| `HelmValues.RewrittenString` | pkg/controllers/custompackage/controller.go:664-676 | A string that begins with `cnoe://` becomes what it resolves to, and every other string stays. |
| `HelmValues.RewrittenIsUnique` | pkg/controllers/custompackage/controller.go:664-698 | A value has one rewritten form: shape, keys, lengths and all strings without the scheme are kept, so the order of keys does not matter. |
| `HelmValues.SchemeLeftIff` | pkg/controllers/custompackage/controller.go:451-459 | A string with the scheme is left at a place if and only if one was there and resolved to one. |
| `HelmValues.SecondRewriteIsIdle` | pkg/controllers/custompackage/controller.go:664-698 | When no resolved URL has the scheme, a second rewrite succeeds and changes nothing. |
| `KindConfig.EnsureCorrectConfig` | pkg/kind/cluster.go:224-294 | Fails exactly on a configuration that does not parse, an empty node list, or a port that must be added and is no number; otherwise the chosen node is completed and all others are unchanged. |
| `KindConfig.ScanNodes` | pkg/kind/cluster.go:246-270 | Chooses the first node that maps the port or has the label, else the first node, and tells what it lacks. |
| `KindConfig.SomeNodeIsChosen` | pkg/kind/cluster.go:246-270 | In every list with nodes one is chosen: the first that maps the port or has the label `ingress-ready` set to `true`, or node 0 when none does; and the configuration can be completed if and only if that node maps the port or the port is a number. |
| `KindConfig.AtoiIs` | pkg/kind/cluster.go:272-276 | The ports that are numbers are an optional sign followed by digits that write a number within 64 bits. |
| `KindConfig.ChosenNodeServes` | pkg/kind/cluster.go:272-291 | The chosen node has the label, and maps the configured port if and only if it did before or the port is written without plus sign or leading zeros and fits in 32 bits. |
| `KindConfig.LittleIsAdded` | pkg/kind/cluster.go:272-291 | At most one mapping is added, behind the others, and no other label changes; an added mapping leads to container port 80 for `http` and 443 otherwise, over TCP, and has the configured host port if and only if this fits in 32 bits. |
| `KindConfig.PortSurvivesIff` | pkg/kind/cluster.go:250-284 | A port converted to 32 bits and back is the same string if and only if it is written without plus sign or leading zeros and fits in 32 bits. |
| `KindConfig.SecondApplicationIsIdleIff` | pkg/kind/cluster.go:224-294 | A second application succeeds, and changes nothing if and only if no port had to be added or the configured port is so written. |
| `KindConfig.PortMappedTwiceIff` | pkg/kind/cluster.go:246-285 | Besides the chosen node another one maps the port in the end if and only if it did from the start, and the chosen node did too or comes first because of its label. |

## Left out

- SnapshotCache.Cache.WriteThroughLink: where a link leads is an arbitrary function of its path, because the tree does not model link resolution, and a write to a place outside the cache is taken to succeed; a reconcile in which some file goes through a link is only said to keep the tree well formed, to keep the link and not to mirror the source.
- SnapshotCache.Cache.CopySnapshotPath: an ancestor that is a link counts as no directory, where the operating system would follow it; in a reconcile no wanted path has one, since stale links are deleted first.
- SnapshotCache.Cache.ReconcileCacheWorktree: the process is taken to own the files and not to be the superuser, who is refused nothing; devices, sockets and directories as snapshot entries, modes of directories, failing disks and the lexical order of a directory walk are not modelled.
- BootstrapRuns.PushIsFromScratchIff: compares contents, since modes are not hashed and a skipped file may keep an old permission; it is for trees without symbolic links, with the rewrite's registry options fixed.
- BootstrapRuns.MetadataStaysSound: edits come between the stages of a sync and not inside one, so that within one stage each file is read once (the comparison of a file and its copy see the same content, and the script reads one set of pins); no listed path turns into a directory between the listing and the copy.
- BootstrapRewrite.SyncCache.PushSnapshotToRemote: git, the rewrite script and the port-forward are answers in a script; which tree git has checked out before a sync is arbitrary.
- DependencyWalk.Walk.AddKustomizeDependencies: a kustomization is given with its list of local references already taken from the document, and symbolic links in the repository are not modelled.
- Refresh.Session.RefreshAfterSync: `kubectl` answers and elapsed time come from a script; whether a commit supersedes another is an answer too, and the filter by repository URL has been applied to each listing.
- PackagePriority.Api.ReconcileCustomPkg: the store is read and written one step at a time, without stale caches or failing calls; a package is its application, its priority and its source path.
- PackagePriority.NamesCanCollide: lower case is taken for ASCII letters only.
- RepositoryOwner.OwnerRankNeverFalls: the controller library either sets the owner, in place of any other package, or fails and changes nothing; a repository's content stands for its whole specification.
- RepoLocks.AtMostOneHolder: a reconcile is the sequence of its lock operations; the git work between them is a step that may fail.
- InstallerChannel.NoSenderBlocks: an installer is any computation that ends with or without an error; that it ends is not claimed.
- Watch.WatchAndSync: runs over a finite list of polls, since the loop itself does not end; the poll interval is not modelled.
- OverrideMerge.ConvertYamlToObjectsWithOverride: YAML parsing and printing and the scheme's decoder are not modelled; a manifest is the list of its objects.
- ScpRemote.KustomizeRemote.ParseSCPStyle: whether the query string parses is an input, and the reference, timeout and submodule options read from it are not kept; locations with a scheme, which the standard library parses, are not modelled, nor its refusal of control characters and bad escapes.
- ScpRemote.CloneUrlTellsApart: does not cover users that hold a colon or a slash once their percent escapes are decoded, or passwords that hold a slash, because the property fails for them, as the lemma below it shows.
- HelmValues.ReconcileHelmValueObjectSource: the rewrite is on values rather than in place through a pointer, so what a failed rewrite leaves in the decoded copy, which the code drops, is not modelled; a URL resolves to the same repository throughout one rewrite.
- KindConfig.EnsureCorrectConfig: YAML parsing is not modelled, and an absent list or map is the same as an empty one.
- Recursive copying between worktrees, cloning, and everything that talks to Gitea, GitHub, Argo CD or a container engine: foreign calls.
- Shutdown decisions, status fields, password handling, templates, capacity checks, telemetry, readiness scripts, printers and command-line flags: they would add only easy members.
