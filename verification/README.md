# Gitlet commit and merge engine in Dafny

This project models the core of a small Java version-control system in the
style of Git, called Gitlet: its staging area, commit records, branch pointers
and remote registry, and the `add`, `commit`, `rm` and `merge` commands that
act on them. The model is functional. A repository is one immutable `Repo`
value holding:

- the commit store, a map from hash to commit;
- the blob store, a map from hash to content;
- the branch table, the current branch and the head hash;
- the staging area;
- the working directory, a map from file name to content.

Every command is a pure function from one `Repo` to a `Result`. An `Err`
means the command stopped and the persisted state is unchanged. A `Crash`
error stands for a Java exception that the source lets escape.

SHA-1 is not modelled. A `Hasher` value, a pair of uninterpreted functions for
blobs and commits, is passed in wherever the source hashes. The clock is a
parameter (`now`). The search for a split point carries a `fuel` bound instead
of relying on the commit graph being acyclic.

Modules, one per file, in dependency order:

- `Outcomes` (outcomes.dfy): `Option`, `Result` and the errors.
- `Lists` (lists.dfy): duplicate-free lists and `ArrayList.remove(Object)`.
- `FileReferences` (file_references.dfy): `FileReference.java` and the 32-bit version counter.
- `Commits` (commits.dfy): `Commit.java`.
- `Staging` (staging.dfy): `StagingArea.java`.
- `Branches` (branches.dfy): `CommitBranch.java`.
- `Remotes` (remotes.dfy): `RemoteInfo.java`.
- `Repository` (repository.dfy): `add`, `commit`, `rm` and `getFullCommitId` from `Main.java`, plus the repository invariant `Valid`.
- `CommitGraph` (commit_graph.dfy): ancestry and `findSplitPoint`.
- `MergeTable` (merge_table.dfy): the 13-branch decision table of `mergeCases`.
- `Merge` (merge.dfy): `mergeAction`, `mergeCases`, `mergeCommit`, the checks of `checkMergeExceptions`, and `merge`.

Where the code departs from what Git does, the model follows the code:

- **Fast-forward.** `checkMergeExceptions` fast-forwards by checking out the given branch and then restoring the current branch's name. This moves head and rewrites the working directory, but no branch table entry is written (Main.java:931-938). Git would move the current branch's pointer as well. `Merge.FastForward` leaves the branch table alone. The `Work` class is not part of this model, so this assumes that its setters set only their own field.
- **Untracked files.** The untracked-file check (`isDiffTracked`, Main.java:578-598) runs and prints its warning, but `checkoutBranch` and `checkMergeExceptions` ignore its result. So nothing aborts on an untracked file, and the model has no such error.
- **Re-staging.** `stageForAddition` does nothing when the name is already staged, so the old snapshot is kept (StagingArea.java:71-78). Git would snapshot the new content.
- **Stored under their own hash.** The source re-hashes the head commit when it needs the head's id (Main.java:874, 923). The model reads `head` there instead. The two agree when every stored commit sits under its own hash, as `init` and `Repository.Record` store them. The model assumes this; `Valid` does not state it.
- **Paths.** The source joins the staging folders and the remote folder onto the absolute working directory. The model keeps these paths relative to it.
- **Disjointness.** Neither `stageForAddition` nor `stageForRemoval` touches the other list. The callers (`add`, `rm`, merge) keep the two lists disjoint. `Staging.WellFormed` is the invariant they preserve.

## Model

| member | source | states |
|---|---|---|
| FileReferences.Increment | FileReference.java:72-74 | `_version += 1` on a Java `int`: plus one below the maximum, wrapping to the minimum at it |
| FileReferences.NewRef | FileReference.java:28-33 | a new reference stores the given file, name and hash at version 0 |
| FileReferences.SetReferenceHash | FileReference.java:38-41 | the hash is replaced and the version rises by one; name and file are kept |
| FileReferences.UpdateVersion | FileReference.java:72-74 | the version rises by one and nothing else changes |
| FileReferences.EqualsIsEquivalence | FileReference.java:82-86 | `equals` (same name and hash) is reflexive, symmetric and transitive |
| FileReferences.EqualsIgnoresVersion | FileReference.java:82-86 | a version bump never changes what a reference equals; a new hash changes it exactly when the hash differs |
| FileReferences.RecommitRaisesVersionByTwo | Main.java:294-299 | `updateVersion` followed by `addReferenceFiles` on a tracked name raises the version by two and installs the new hash |
| Commits.NewCommit | Commit.java:51-56 | a new commit has the given message and time, no tracked files, no parents and no single-parent field |
| Commits.FirstCommit | Commit.java:41-43 | the root commit is "initial commit" at time 0 with no files and no parents |
| Commits.FindRef | Commit.java:177-184 | `filteredReferenceFile` is null exactly when no reference has the name, else the first reference with that name |
| Commits.AddReferenceFile | Commit.java:101-108 | an untracked name gets a new reference appended; a tracked one has its hash set in place; no other position changes and the list grows by at most one |
| Commits.AddReferenceFileLookup | Commit.java:101-108 | after `addReferenceFiles` the name is found with the new hash, as a version-0 reference or as the old one with its hash set |
| Commits.AddReferenceFileKeepsOthers | Commit.java:101-108 | `addReferenceFiles` changes the lookup of no other name |
| Commits.AddReferenceFileUnique | Commit.java:101-108 | `addReferenceFiles` keeps names unique |
| Commits.UpdateVersionOf | Main.java:294-298 | bumping the version of a tracked name keeps the list's length and names, and an untracked name leaves the list as it is |
| Commits.UpdateVersionOfLookup | Main.java:294-298 | the in-place `updateVersion` on the looked-up reference bumps that reference only and keeps names unique |
| Commits.RemoveReferenceFile | Commit.java:113-118 | the reference with the name is dropped and the others keep their order; an absent name leaves the list as it is; names stay unique and no other lookup changes |
| Commits.RefNames | Commit.java:66-72 | `getAllRefNames` lists the tracked names in list order, one per reference |
| Commits.RefNamesAgreeWithFindRef | Commit.java:66-72 | a name is listed exactly when `filteredReferenceFile` finds it |
| Commits.AddPrevHash | Commit.java:123-125 | a parent hash is appended and nothing else changes |
| Commits.AddPrevHashesThenGet | Commit.java:123-143 | parents added one by one come back from `getPrevHash` at their positions, in order; a negative index gives null |
| Commits.GetPrevHashAsWritten | Commit.java:138-143 | `getPrevHash` as written: in-range indexes give the parent, indexes below 0 or above the size give null, and index equal to the size throws |
| Commits.GetPrevHash | Commit.java:138-143 | `getPrevHash` as intended: a parent exactly for in-range indexes, null otherwise |
| Commits.GetPrevHashPastEndCrashes | Commit.java:139 | on a one-parent commit, index 1 throws as written where the intended guard gives null |
| Commits.IsMerge | Commit.java:165-170 | a commit is a merge exactly when it has two or more parents |
| Staging.EmptyStage | StagingArea.java:27-32 | a new staging area has both lists and both snapshot folders empty |
| Staging.Filtered | StagingArea.java:153-160 | the scan returns the name exactly when it is in the list, null otherwise |
| Staging.FilteredAddition | StagingArea.java:167-174 | the name if staged for addition, else null |
| Staging.FilteredRemoval | StagingArea.java:153-160 | the name if staged for removal, else null |
| Staging.CancelStagedAddition | StagingArea.java:59-66 | an unstaged name changes nothing; a staged one leaves the list and its snapshot; the removal side and every other snapshot are untouched; duplicate-freedom and well-formedness are kept |
| Staging.StageForAddition | StagingArea.java:71-78 | an already-staged name changes neither list nor snapshot; otherwise the name is appended with its working copy as snapshot; the removal side is untouched |
| Staging.CancelStagedRemoval | StagingArea.java:101-108 | an unstaged name changes nothing; a staged one leaves the removal list and its snapshot; every other removal snapshot is kept; the addition side is untouched; well-formedness is kept |
| Staging.StageForRemoval | StagingArea.java:113-120 | an already-staged name changes nothing; otherwise the name is appended with its working copy; the addition side is untouched; no duplicates arise |
| Staging.ManualAddRemoval | StagingArea.java:125-130 | the name is appended to the removal list unless present, without a snapshot; nothing else changes |
| Staging.DeleteAllAddition | StagingArea.java:81-88 | the addition list and folder are emptied; the removal side is untouched |
| Staging.DeleteAllRemoval | StagingArea.java:133-140 | the removal list and folder are emptied; the addition side is untouched |
| Staging.DeleteAllStage | StagingArea.java:143-146 | both lists and folders end empty |
| Staging.AddPatternKeepsWellFormed | Main.java:256-261 | the stage edits of `add` keep the staging area well formed, leave the name off the removal list, stage it exactly when it differs from the head, and touch no other name |
| Staging.RemovePatternKeepsWellFormed | Main.java:403-405 | the stage edits of `rm` on a tracked name keep the staging area well formed, move the name to the removal list, and touch no other name |
| Branches.NewBranch | CommitBranch.java:20-23 | the constructor stores the given name and head hash |
| Branches.SetHeadPointerHash | CommitBranch.java:28-30 | only the head hash is replaced |
| Branches.BranchName | CommitBranch.java:35-37 | the getter returns the name the branch was built with, and rebuilding from name and hash gives the same branch |
| Branches.HeadPointerHash | CommitBranch.java:42-44 | the getter returns the hash the branch was built or last set with |
| Branches.ToString | CommitBranch.java:47-49 | `toString` is the branch name |
| Branches.NameNeverChanges | CommitBranch.java:10-30 | any run of `setHeadPointerHash` keeps the name and leaves the last hash given |
| Remotes.NewRegistry | RemoteInfo.java:15-17 | a new registry is empty |
| Remotes.AddRemoteDir | RemoteInfo.java:23-32 | a known name is refused with the registry unchanged; a fresh one is appended and the registry stays duplicate-free |
| Remotes.RemoveRemoteDir | RemoteInfo.java:37-45 | an unknown name is refused; a known one is removed, every other name stays, and the registry stays duplicate-free |
| Remotes.GetRemoteDir | RemoteInfo.java:51-53 | the path is the remote folder, a separator and the name, and the name can be read back from it |
| Remotes.RemoteDirIsInjective | RemoteInfo.java:51-53 | two remote names give the same path exactly when they are the same name |
| Repository.StagedPath | StagingArea.java:52-54 | the staged copy of a file lives at the addition folder joined with its name |
| Repository.Add | Main.java:239-262 | a missing working file is refused; otherwise only the staging area changes, the name is unstaged for removal, and it is staged for addition exactly when the head does not track it with that content hash; other names are untouched; the invariant is kept |
| Repository.StagedRef | Main.java:294-299 | a staged file becomes a new version-0 reference or the old reference with the new hash |
| Repository.StoreBlobs | Main.java:291-301 | every staged snapshot is in the blob store afterwards and nothing stored is lost |
| Repository.CommitAdditionLookup | Main.java:292-300 | one pass of the addition loop sets that name's reference and no other |
| Repository.ApplyAdditionsLookup | Main.java:291-301 | after the addition loop, each staged name has its staged reference and every other lookup is the head's |
| Repository.ApplyRemovalsLookup | Main.java:303-305 | after the removal loop, every removed name is untracked and every other lookup is unchanged |
| Repository.TrackedLookup | Main.java:278-305 | a new commit tracks, name by name: nothing if staged for removal, the staged version if staged for addition, else the head's |
| Repository.ApplyAdditionsHashesStored | Main.java:291-301 | references produced by the addition loop all point at stored blobs |
| Repository.ApplyRemovalsKeepsMembers | Main.java:303-305 | the removal loop only drops references |
| Repository.TrackedHashesStored | Main.java:291-305 | every hash a new commit tracks is in the blob store once the snapshots are written |
| Repository.Record | Main.java:302-310 | the shared tail of `commit` and `mergeCommit`: the new commit is stored under its hash, tracks what the staging area says, becomes head and current-branch tip; the staging area empties; other commits are kept and no blob is lost; the invariant holds |
| Repository.RecordValid | Main.java:302-310 | storing the new commit and its blobs keeps every stored commit well formed |
| Repository.Commit | Main.java:270-312 | a blank message or an empty staging area is refused with nothing changed; otherwise the new commit has the head as its only parent, is no merge, tracks the staged changes over the head's files, and becomes head and branch tip with the staging area emptied; every other stored commit is kept as it was and no blob is lost |
| Repository.RecommitVersion | Main.java:294-299 | committing a staged, already-tracked file raises its version by two and records the snapshot's hash |
| Repository.Rm | Main.java:392-412 | a name neither staged nor tracked is refused; otherwise it is unstaged for addition; if tracked it is also staged for removal and deleted from the working directory; if untracked, the removal list and the working directory stay as they were; other names are untouched; the invariant is kept |
| Repository.FullCommitIdAsWritten | Main.java:504-515 | as written, any id it returns is a stored id that starts with the abbreviation |
| Repository.GetFullCommitId | Main.java:504-515 | the first stored id starting with the abbreviation, or null exactly when none does |
| Repository.FullCommitIdAsWrittenWhenLongEnough | Main.java:504-515 | when no stored id is shorter than the abbreviation, the code as written answers as intended |
| Repository.LongAbbreviationCrashes | Main.java:508 | an abbreviation longer than a stored id throws as written where the intended lookup finds nothing |
| CommitGraph.BfsClosed | Main.java:876-885 | the breadth-first list holds the branch head and every parent of every member |
| CommitGraph.BfsSound | Main.java:876-885 | every member of the breadth-first list is an ancestor of the branch head |
| CommitGraph.LifoSound | Main.java:886-899 | the last-in-first-out search returns only listed hashes that are ancestors of the current head |
| CommitGraph.LifoFindsCovered | Main.java:886-899 | the search never returns null while a listed hash is an ancestor of something on its stack |
| CommitGraph.FindSplitPoint | Main.java:869-900 | the split point is an ancestor of both heads and stored; null means no common ancestor; when the current head is an ancestor of the branch head, the split point is the current head |
| CommitGraph.SplitPointFacts | Main.java:869-900 | the three properties of the split point, from the two phases of the search |
| CommitGraph.BfsFindsEveryCommit | Main.java:876-885 | with every parent stored, the breadth-first phase can only run out of fuel |
| CommitGraph.LifoFindsEveryCommit | Main.java:886-899 | with every parent stored, the search phase can only run out of fuel |
| CommitGraph.SplitPointOnlyRunsOutOfFuel | Main.java:869-900 | with every parent stored, reading a commit never fails during the search |
| CommitGraph.BfsListsAncestors | Main.java:876-885 | a completed breadth-first list holds exactly the ancestors of its start |
| CommitGraph.AncestorHiddenByMerge | Main.java:886-899 | after one ordinary merge M of A and X, both children of R, A is an ancestor of M, yet the search from head M against branch A returns R |
| CommitGraph.MergeBase | Main.java:869-900 | the split point `merge` uses: a stored common ancestor, or null when none exists; the branch head exactly when it is an ancestor of the head; the head when the head is an ancestor of the branch head but not conversely; otherwise the search as written |
| CommitGraph.MergeBaseOnlyRunsOutOfFuel | Main.java:869-900 | with every parent stored, the corrected search fails only by running out of fuel |
| CommitGraph.MergeBaseFindsHiddenAncestor | Main.java:927 | on the history above, the corrected search returns A, so `merge` reports the ancestor |
| MergeTable.FirstRule | Main.java:1010-1055 | the branch taken is the first whose guard holds; none is taken only when no guard holds |
| MergeTable.GuardsExclusive | Main.java:1010-1055 | at most one of the 13 guards holds for any triple, so their order does not matter |
| MergeTable.UncoveredTriple | Main.java:1010-1055 | no guard holds exactly when the name is absent everywhere or added identically on both sides |
| MergeTable.WitnessGuard | Main.java:1010-1055 | every other triple has a guard that holds |
| MergeTable.DecideIsThreeWay | Main.java:1010-1055 | the table decides as the three-way rule does: an unchanged side gives way, agreeing sides keep, differing changes conflict |
| MergeTable.TakesOtherExactly | Main.java:1010-1033 | the branch's version is taken exactly when the head kept the split version and the branch changed it to a present file |
| MergeTable.ConflictsExactly | Main.java:1039-1054 | a conflict arises exactly when both sides changed since the split and disagree |
| MergeTable.RemovesExactly | Main.java:1019-1022 | a removal is staged exactly when the head kept the split version and the branch deleted it |
| Merge.ConflictText | Main.java:1082-1093 | the conflict file is the head marker, the head's content, the separator, the branch's content, the end marker, at these positions |
| Merge.ConflictTextExample | Main.java:1082-1093 | head "a\n" against branch "b\n" gives the five-line marker text |
| Merge.ConflictTextDeterminesSides | Main.java:1093 | given the length of the head's side, the text determines both sides |
| Merge.ConflictTextAmbiguous | Main.java:1093 | without that length it does not: the markers are not escaped |
| Merge.Plan | Main.java:1010-1055 | the decision for a name and what it writes: the branch's blob when taking the branch's version, the conflict text on conflict, nothing otherwise |
| Merge.Resolve | Main.java:1070-1097 | the intended `mergeAction`: a fresh name ends resolved as planned (staged for addition exactly when a file is written, for removal exactly on remove) and no other name changes |
| Merge.ResolveAsWritten | Main.java:1070-1097 | `mergeAction` as `mergeCases` reaches it, with the file name taken from the references: a name the table keeps changes nothing |
| Merge.ResolveAsWrittenDiverges | Main.java:1070-1097 | the code as written matches the intended action except for a conflict on a file the head deleted (null dereference) and a removal whose working file is gone (missing file) |
| Merge.DeletedHeadConflictCrashes | Main.java:1047-1050 | a concrete split/branch pair with the head's file deleted crashes as written and is staged as a conflict when corrected |
| Merge.MissingWorkingFileRemoveCrashes | Main.java:1079-1080 | a concrete removal with the working file gone crashes as written and is staged when corrected |
| Merge.Classify | Main.java:1003-1008 | the names recorded as used are duplicate-free and are exactly the names seen |
| Merge.ResolveKeepsProgress | Main.java:1003-1055 | resolving one unused name keeps all earlier resolutions and the staging area well formed |
| Merge.ClassifyKeepsProgress | Main.java:1003-1055 | the loop keeps every name resolved as planned if used and untouched otherwise |
| Merge.ClassifyResolvesEachName | Main.java:997-1058 | from an empty staging area every listed name is classified once, resolved as planned, no other name is touched, and the staging area stays well formed |
| Merge.MergeCommit | Main.java:950-982 | the merge commit has the head then the branch head as parents, is a merge, carries the merge message and tracks what `commit` would; head and branch tip move to it; the staging area empties; files staged for removal leave the working directory; no blob is lost; the invariant holds |
| Merge.WriteRefsLookup | Main.java:640-642 | writing out a commit's files leaves each tracked name holding its blob and every other file untouched |
| Merge.FastForwardFiles | Main.java:637-642 | after the checkout, a file of the branch head holds its blob, a file only the old head tracked is gone, and any other file is untouched |
| Merge.FastForward | Main.java:931-938 | fast-forwarding moves head to the branch head, empties the staging area, rewrites the working directory as above, leaves commits and the branch table alone, and keeps the invariant |
| Merge.AllFileNames | Main.java:1117-1127 | the names handed to `mergeCases` are exactly those tracked by the split point, the head or the branch head |
| Merge.AllFileNamesTracked | Main.java:1117-1127 | a name is in the concatenated name lists exactly when one of the three commits tracks it |
| Merge.MergeFiles | Main.java:1104-1134 | the three-way part of `merge` ends in a merge commit whose parents are the head then the branch head, moves the branch tip, empties the staging area and keeps the invariant; every other stored commit is kept and no blob is lost |
| Merge.Merge | Main.java:908-941 | `merge` refuses an unknown branch, the current branch and a non-empty staging area in that order; the null dereference of the split point happens only when the heads share no ancestor; "ancestor" is reported exactly when the branch head is an ancestor of the head; fast-forward means the head is an ancestor of the branch head; a three-way merge keeps every other stored commit and loses no blob; the result stays valid |
| Merge.SearchOnlyRunsOutOfFuel | Main.java:926 | on a valid repository the corrected split-point search can fail only by running out of fuel |
| Merge.CommitFollowsResolved | Main.java:959-976 | a name resolved in the staging area is tracked by the merge commit as planned, and its working file is kept, written or deleted accordingly |
| Merge.MergeFilesFollowsPlan | Main.java:1104-1134 | name by name, the merge commit tracks what the three-way rule says and the working directory holds what it wrote, lacks what it removed, and is untouched elsewhere |
| Merge.MergeFastForwardsWhenBehind | Main.java:926-938 | when the head is an ancestor of the branch head but not the other way round, and the search completes, `merge` fast-forwards |
| Merge.ClassifyAsWritten | Main.java:1003-1058 | the `mergeCases` loop with the action as written stops at the first name whose action throws, with a null dereference or a missing file |
| Merge.ClassifyAsWrittenDiverges | Main.java:1003-1097 | the loop as written throws exactly when some unvisited name is a conflict the head deleted or a removal whose working file is gone; otherwise it ends as the corrected loop does |
| Merge.CrashNameIsListed | Main.java:1117-1127 | a name on which the action as written throws is tracked by one of the three commits, so the loop reaches it |
| Merge.MergeFilesAsWritten | Main.java:1104-1134 | the three-way part of `merge` with the action as written fails only by one of those two exceptions |
| Merge.MergeFilesAsWrittenDiverges | Main.java:1104-1134 | as written, the three-way part throws exactly when some name is a conflict the head deleted or a removal whose working file is gone; otherwise it gives the corrected result |

## Left out

- Command dispatch, operand checks, `init`, `log`, `global-log`, `find`, `status`, `checkout` of single files, `branch`, `rm-branch` and `reset` are outside the commit and merge core. They are used here only where the merge calls into them.
- `push`, `fetch` and `pull` are cross-directory object copies and are not modelled.
- SHA-1 and Java serialisation are left uninterpreted: `Hasher` stands for them. The model does not assume the hash is injective.
- Writing files is modelled as updates of the working-directory, blob and snapshot maps. Disk effects that happen before a crash are not modelled: an `Err` leaves the whole state unchanged.
- `isDiffTracked` is not modelled. `checkoutBranch` and `checkMergeExceptions` ignore its result; `reset` acts on it, but `reset` is outside this model.
- The `Work` class is not part of this model. The branch table is a map from branch name to hash, and `updateCurrBranchCommitHistory` is not modelled. `Branches` models `CommitBranch.java` on its own; `Repo` does not use it.
- `getRecentParent` and the single-parent field setter are not modelled beyond the field itself. `commit` sets that field to the head; `mergeCommit` leaves it empty.
- The `RemoteInfo` file copy of the remote's location is not modelled. The registry is a list of names.
- `checkout(commitId, name)` inside a merge resolves the branch head's full hash through `getFullCommitId`. Stored ids all have the same length, so this finds that very commit, and the model reads the branch head directly.
- The in-memory `Work` object is written back by `merge` after `checkout` has written its own copy. So the staging edit `filteredCheckout` makes on that copy is overwritten and is not modelled.
- CommitGraph.FindSplitPoint: the source relies on acyclicity to stop. The model carries fuel, shared by both phases, and answers `OutOfFuel` when the fuel is spent before the search ends.
- Merge.Merge: uses the corrected split point CommitGraph.MergeBase, so it reports "ancestor" where the code as written may merge (see Findings). Fast-forward is stated from the head's ancestry in one direction only: when each head is an ancestor of the other (the same commit, or a cycle) the model reports "ancestor".
- Merge.Merge: uses the corrected `mergeAction`, so the two exceptions of Main.java:1080 and 1094 do not appear at command level. Merge.MergeFilesAsWritten and Merge.MergeFilesAsWrittenDiverges state exactly when the code as written throws instead.
- Merge.MergeFiles: uses the corrected `mergeAction`, for the same reason; Merge.MergeFilesAsWrittenDiverges relates it to the code as written.
- CommitGraph.MergeBase: apart from the ancestor case it keeps the source's search, so the split point need not be the latest common ancestor.
- Merge.Merge: the working-directory effects of a three-way merge are stated name by name in Merge.MergeFilesFollowsPlan, not in the contract of `Merge` itself.
- Merge.MergeFiles: whether a conflict was reported is returned as a flag but not otherwise characterised.

## Findings

| source | as written | input that shows it | evidently intended | confidence | as-written member | corrected member |
|---|---|---|---|---|---|---|
| Commit.java:139 | the guard `index > size` lets `index == size` reach `LinkedList.get`, which throws | a commit with one parent, index 1 | null for every index outside the list | not executed | Commits.GetPrevHashAsWritten | Commits.GetPrevHash |
| Main.java:508 | `fullID.substring(0, abbrev.length())` throws when a stored id is shorter than the abbreviation | ids ["abc"], abbreviation "abcd" | the first id that starts with the abbreviation, or null | not executed | Repository.FullCommitIdAsWritten | Repository.GetFullCommitId |
| Main.java:1094 | the conflict action takes the file name from the head's reference, which is null when the head deleted the file and the branch changed it | split tracks f with hash 1, branch tracks f with hash 2, head does not track f | write and stage the conflict file under the file's own name | not executed | Merge.ResolveAsWritten | Merge.Resolve |
| Main.java:886-899 | the last-in-first-out search may reach an older common ancestor before the given branch head, so `merge` misses that the branch is an ancestor and makes a merge commit | commits R; A and X with parent R; M with parents A then X; head at M, branch at A | report "Given branch is an ancestor of the current branch." and change nothing | not executed | CommitGraph.FindSplitPoint | CommitGraph.MergeBase |
| Main.java:1080 | the remove action calls `stageForRemoval`, which reads the working file and throws when the user already deleted it | split and head track f unchanged, branch deleted f, f absent from the working directory | stage the removal without a snapshot, as `rm` does | not executed | Merge.ResolveAsWritten | Merge.Resolve |

The counterexamples are proved as Commits.GetPrevHashPastEndCrashes, Repository.LongAbbreviationCrashes, CommitGraph.AncestorHiddenByMerge, Merge.DeletedHeadConflictCrashes and Merge.MissingWorkingFileRemoveCrashes; CommitGraph.MergeBaseFindsHiddenAncestor shows the corrected search on the same history. Merge.ResolveAsWrittenDiverges shows that the last two are the only ways the merge action as written differs from the corrected one, and Merge.MergeFilesAsWrittenDiverges lifts this to the whole three-way pass. `Merge` uses the corrected search and the corrected action.
