# Gitlet core in Dafny

A model of the core of gitlet. Gitlet is a small Git-like version-control system written in Java. The model covers:

- the commit record and how parent ids are derived and dereferenced (`gitlet/Commit.java`);
- the commit graph:
  - the breadth-first history search;
  - the split point of two heads;
  - the first-parent walk of `log`;
  - the fast-forward test of `push`;
- the staging area: `add`, `rm` and `commit`, which turns the head snapshot plus both stages into a new commit;
- branch pointers and head: `init`, `branch`, `rm-branch`, `checkout` in its three forms, the prefix lookup of abbreviated commit ids, the untracked-file guard, and `reset`;
- `merge`:
  - the per-file three-way decision;
  - the conflict text;
  - the preconditions and short-circuits;
  - the merge commit.

The whole repository is one immutable record: commit store, blob store, branch pointers, current branch, head, add-stage, remove-stage and working directory. Every command is a pure function from a record to a `Result`. A `Failure` carries the message the Java code prints before it returns without changing anything.

SHA-1 is a `Hasher` value holding two functions: commit to id, and contents to blob id. Every property that needs collision-freedom takes it as the precondition `ValidHasher`: commit ids are never empty, and distinct commits, like distinct contents, get distinct ids. This assumption is consistent: `Encoding.ValidRepositoryExists` builds such a hasher from a serialization of commits, and `init` under it yields a repository satisfying the invariant `Valid`. The line separator is fixed to `"\n"`.

Modules, in dependency order:

| file | module | contents |
|---|---|---|
| wrappers.dfy | Wrappers | `Option`, `Result`, `Lookup` (Java's `Map.get`) |
| objects.dfy | Objects | `Commit`, `Hasher`, parent ids, `equals`/`hashCode`, the log header |
| graph.dfy | Graph | ancestry, the BFS, `History`, `SplitPoint`, `IsFastForward`, `FirstParentLog` |
| repository.dfy | Repository | `Repo`, `Error`, the invariant `Valid`, `SetHeadAndBranch`, `Init` |
| staging.dfy | Staging | `Add`, `Rm`, `CommitChanges` |
| branches.dfy | Branches | `CreateBranch`, `RemoveBranch`, the checkouts, `FindFullCommitId`, `Reset` |
| merge.dfy | Merge | `IsSameInCommit`, `CheckWhatToDo`, `ConflictText`, the merge loop, `Merge` |
| encoding.dfy | Encoding | a prefix-free serialization of commits, which gives a concrete `Hasher` satisfying `ValidHasher` |

Where the code and its design description disagree, the model follows the code:

- **Fast-forward calls `checkoutBranch`.** The current branch switches to the given branch (`gitlet/Repository.java:752-756`). The current branch pointer is not simply moved.
- **An empty merge makes no commit.** If every file REMAINs, the closing `commit` reports "No changes added to the commit." and no merge commit is made (`gitlet/Repository.java:203-206`, `779`).
- **Merge's untracked check is broad.** It rejects any working file that the head commit does not track, whether or not the merge would touch it (`gitlet/Repository.java:738-743`).
- **`findFullCommitId` takes the first match.** It returns the first matching id in directory-listing order and does not report ambiguity. The listing is a parameter of the model.
- **`reset` has a `notRemote` flag.** When the flag is false, the guard and the deletions are skipped (`gitlet/Repository.java:656-669`).

## Model

| member | source | states |
|---|---|---|
| Objects.NewCommit | gitlet/Commit.java:34-40 | the fields are as given; a parent id is "" exactly when that parent is missing (for a hasher whose ids are never empty), and otherwise it is the parent's content hash |
| Objects.GetParent1 | gitlet/Commit.java:64-69 | no parent exactly when parent1's id is "", and otherwise the commit stored under that id |
| Objects.GetParent2 | gitlet/Commit.java:71-76 | the same for the second parent |
| Objects.ParentsRoundTrip | gitlet/Commit.java:34-76 | building a commit from stored parents and then dereferencing its parent ids gives back exactly those parents, in a content-addressed store |
| Objects.JavaStringHash | gitlet/Commit.java:79-81 | `String.hashCode` stays inside 32 bits |
| Objects.SameCommitIsContentEquality | gitlet/Commit.java:79-97 | id equality (the intended `equals`) holds exactly for equal contents; it is an equivalence relation and agrees with `hashCode` and with `equals` as written |
| Objects.EqualsAsWrittenConfusesDistinctCommits | gitlet/Commit.java:86-97 | two different commits whose ids are 933e73fb… and b8f65f7d… compare equal under `equals` as written |
| Objects.MergeLineIffSecondParent | gitlet/Commit.java:45-53 | a log entry has a `Merge:` line exactly when the commit has a second parent, and that line shows the 7-character prefixes of both parents |
| Graph.BfsSearch | gitlet/Repository.java:883-911 | the start is polled first, and no commit is polled twice; the polling order is breadth-first: every later commit was enqueued by an earlier one, commits enqueued by an earlier poll come out before those of a later poll, and a first parent before the second; everything visited is an ancestor; a result is the first polled commit in the destination set, and it is the first commit of the destination set in the polling order of the search without a destination, so no commit is skipped; no result means the visited set is the whole history and misses the destination set |
| Graph.BfsSearchPollsByDepth | gitlet/Repository.java:884-907 | commits come out of the queue in order of their depth in the search tree: a later one is never nearer the start |
| Graph.DepthMonotone | gitlet/Repository.java:884-907 | in any breadth-first order, depth never decreases from one position to a later one |
| Graph.ParentDepth | gitlet/Repository.java:898-907 | in a breadth-first order, a parent of a commit is at most one level deeper than the commit |
| Graph.BreadthFirstExample | gitlet/Repository.java:898-907 | for a merge commit whose first parent has its own parent, the first-parent-then-second-parent level order is breadth-first and the depth-first order is not |
| Graph.BfsDestIsFirstOfFullOrder | gitlet/Repository.java:892-896 | a search towards a destination returns the first commit, in the full BFS polling order, that lies in the destination |
| Graph.History | gitlet/Repository.java:1082-1084 | the full search from a head visits exactly the head's ancestors-or-self |
| Graph.SplitPoint | gitlet/Repository.java:866-876 | a split point is an ancestor of both heads; there is none exactly when their histories are disjoint; the other head itself when it is an ancestor of the current head; otherwise the first common ancestor in BFS order from the other head |
| Graph.IsFastForward | gitlet/Repository.java:1005-1015 | push's test holds exactly when the remote head is an ancestor-or-self of the local head |
| Graph.FirstParentLog | gitlet/Repository.java:273-291 | the walk starts at the head and follows first parents; it stops at a commit without one, or when the fuel runs out |
| Graph.LogShowsHistory | gitlet/Repository.java:273-291 | every commit `log` shows is in the head's history |
| Repository.SetHeadAndBranch | gitlet/Repository.java:114-124 | the named branch becomes current; it and head point at the id; other branches and all stores are untouched |
| Repository.Init | gitlet/Repository.java:81-99 | a valid repository with the single initial commit (no files, no parents), only the branch master, and empty stages |
| Staging.Add | gitlet/Repository.java:141-171 | fails exactly for a missing file; the name always leaves the remove-stage; it is in the add-stage, with the working contents, exactly when those contents differ from the head commit's blob; nothing else changes |
| Staging.Rm | gitlet/Repository.java:240-265 | fails exactly when the file is neither staged nor tracked; unstages it; a tracked file is also deleted from the working directory and staged for removal |
| Staging.Snapshot | gitlet/Repository.java:198-223 | the new snapshot holds the parent's entries, with each staged file under its contents' hash and each name of the remove-stage dropped |
| Staging.StoreBlobs | gitlet/Repository.java:209-216 | every staged file's contents are stored under their hash; earlier blobs are kept; the store stays content-addressed |
| Staging.CommitChanges | gitlet/Repository.java:186-232 | with both stages empty it fails with "No changes added"; otherwise the new head is stored under its hash, has the old head and the given second parent as parents, and has the message, time and staged snapshot; both stages are empty, the current branch points at it, and no stored commit changes |
| Staging.CommitPreservesValid | gitlet/Repository.java:186-232 | commit keeps the repository invariant |
| Staging.AddPreservesValid | gitlet/Repository.java:141-171 | add keeps the repository invariant |
| Staging.RmPreservesValid | gitlet/Repository.java:240-265 | rm keeps the repository invariant |
| Staging.AddThenCommit | gitlet/Repository.java:157-170 | after add and then commit, the new head tracks the file under a blob holding exactly its working contents |
| Staging.RmThenCommit | gitlet/Repository.java:248-258 | after removing a tracked file, commit succeeds and the new head no longer tracks it |
| Staging.AddIdempotent | gitlet/Repository.java:157-170 | adding the same file twice is the same as adding it once |
| Staging.AddThenRmUntracked | gitlet/Repository.java:248-258 | add then rm of an untracked file leaves it unstaged and still in the working directory |
| Branches.CreateBranch | gitlet/Repository.java:459-471 | fails exactly when the name exists; otherwise adds one pointer at head and nothing else changes |
| Branches.RemoveBranch | gitlet/Repository.java:584-601 | fails exactly for a missing branch or the current branch, with the matching message; otherwise only that pointer is gone |
| Branches.RemoveUndoesCreate | gitlet/Repository.java:459-601 | creating a branch and removing it restores the repository |
| Branches.CreateBranchPreservesValid | gitlet/Repository.java:459-471 | branch keeps the repository invariant |
| Branches.RemoveBranchPreservesValid | gitlet/Repository.java:584-601 | rm-branch keeps the repository invariant |
| Branches.CheckoutFile | gitlet/Repository.java:480-492 | fails exactly when the head commit lacks the file; otherwise the working file hashes to the head's blob and nothing else changes |
| Branches.FindFullCommitId | gitlet/Repository.java:622-633 | none exactly when no listed id starts with the prefix; otherwise a listed id that starts with it, and no earlier listed id does |
| Branches.FullIdResolvesToItself | gitlet/Repository.java:622-633 | a full listed id resolves to itself when all ids have the same length |
| Branches.ResolveIsStable | gitlet/Repository.java:622-633 | resolving the id a resolution returned gives the same id again, for ids of any length; reset relies on this when it hands the resolved id to checkout, which resolves it a second time (line 673) |
| Branches.CheckoutFileAt | gitlet/Repository.java:503-521 | fails exactly when no listed id matches the prefix or the commit lacks the file; otherwise writes that commit's version and changes nothing else |
| Branches.CheckoutBranch | gitlet/Repository.java:531-579 | fails exactly for a missing branch, the current branch, or an untracked unstaged file that the target needs; otherwise writes the target's files, deletes files tracked only by the old head, keeps every other working file, clears both stages, and makes the branch current with head at its commit |
| Branches.CheckoutKeepsUntracked | gitlet/Repository.java:607-618 | a checkout that goes ahead leaves every untracked, unstaged working file as it was |
| Branches.CheckoutRestoresSnapshot | gitlet/Repository.java:562-566 | after a checkout, every file the new head tracks is in the working directory with contents that hash to its blob |
| Branches.CheckoutBranchPreservesValid | gitlet/Repository.java:531-579 | checkout of a branch keeps the repository invariant |
| Branches.ResetAsWritten | gitlet/Repository.java:640-682 | reset as the code does it: the same failures as the corrected reset; on success a valid repository with head and the current branch at the commit, both stages empty, and the target's files written; with `notRemote` every working file the target lacks is gone, tracked or not, and without it those files are untouched |
| Branches.Reset | gitlet/Repository.java:640-682 | fails exactly for an unknown id, or (with `notRemote`) an untracked unstaged file the target needs; otherwise writes the target's files; with `notRemote` it deletes only files the head tracked and the target lacks, and without it leaves every file the target lacks untouched; it clears both stages and moves head and the current branch to the commit |
| Branches.ResetAsWrittenDeletesUntracked | gitlet/Repository.java:663-668 | as written, reset deletes an untracked working file that the target lacks, while the corrected reset keeps it unchanged |
| Branches.ResetAsWrittenExample | gitlet/Repository.java:663-668 | just after init, resetting to the initial commit deletes the untracked `notes.txt` |
| Merge.IsSameInCommit | gitlet/Repository.java:851-862 | same exactly when the file is absent from both snapshots or present in both under the same blob id |
| Merge.IsSameIsEquivalence | gitlet/Repository.java:851-862 | sameness is reflexive, symmetric and transitive |
| Merge.CheckWhatToDo | gitlet/Repository.java:830-848 | CONFLICT exactly when all three versions differ; CHANGE exactly when the current version equals the split's and the branch's differs |
| Merge.DecisionTable | gitlet/Repository.java:830-848 | case by case: all three same gives REMAIN, none gives CONFLICT, only split=current gives CHANGE, only split=branch or current=branch gives REMAIN; exactly two can never hold |
| Merge.ThreeWayRule | gitlet/Repository.java:830-848 | away from conflicts, the decision takes the branch's version if only the branch changed it since the split, and keeps the current one otherwise |
| Merge.ConflictText | gitlet/Repository.java:815-818 | the conflict file is the HEAD marker, the current contents, the separator, the given contents and the closing marker, laid out at the stated offsets |
| Merge.ConflictTextIsNew | gitlet/Repository.java:815-822 | a conflict file never equals the current contents it replaces |
| Merge.ConflictTextSides | gitlet/Repository.java:815-818 | both sides can be read back from a conflict file, given the length of the current side |
| Merge.ChangeFileTo | gitlet/Repository.java:787-795 | the given branch's version is written and staged; or, when the branch lacks the file, it is deleted and staged for removal; other files are untouched and the invariant holds |
| Merge.UpdateConflictFile | gitlet/Repository.java:809-823 | the conflict text of the two sides is written and staged for addition; other files are untouched and the invariant holds |
| Merge.ConflictNotTracked | gitlet/Repository.java:820-822 | the conflict file never hashes to the head's blob, so add always stages it |
| Merge.MergeEntryIdempotent | gitlet/Repository.java:763-777 | handling a file a second time changes nothing |
| Merge.MergeFile | gitlet/Repository.java:764-776 | one loop pass sets that file's entry to the merge decision's result and leaves every other file alone |
| Merge.MergeAllFiles | gitlet/Repository.java:758-777 | the state after the loop, file by file: each listed name gets its merge entry and every other name keeps its own |
| Merge.MergeFilesPointwise | gitlet/Repository.java:763-777 | the loop over any sequence of names gives each listed name its merge entry and leaves the others, whatever the order and repetitions |
| Merge.MergeLoopIsOrderFree | gitlet/Repository.java:758-777 | the loop's result does not depend on the hash set's iteration order |
| Merge.UntrackedEverywhereRemains | gitlet/Repository.java:758-760 | a name none of the three snapshots tracks is REMAIN and left alone, so the union of keys is all merge needs to visit |
| Merge.ThreeWayMerge | gitlet/Repository.java:758-784 | the three-way merge either makes a merge commit, keeping the invariant, or reports "No changes added" |
| Merge.Merge | gitlet/Repository.java:705-729 | the merge keeps the invariant; it reports uncommitted changes exactly when a stage is non-empty, a missing branch, a merge with itself, and an untracked file exactly when a working file is not tracked by the head, each only after the earlier checks pass |
| Merge.MergeBranch | gitlet/Repository.java:731-743 | after the first checks, it reports an untracked file exactly when some working file is not tracked by the head |
| Merge.MergeAtSplit | gitlet/Repository.java:747-784 | after the split point is known, the only failures are no split point, given branch is an ancestor, and no changes |
| Merge.MergeGivenBranchIsAncestor | gitlet/Repository.java:747-750 | "Given branch is an ancestor" is reported exactly when the checks pass and the given head is an ancestor-or-self of the current head |
| Merge.MergeNoSplitPoint | gitlet/Repository.java:731-758 | no split point is reported exactly when the checks pass and the two histories are disjoint |
| Merge.MergeFastForward | gitlet/Repository.java:752-756 | a fast-forward happens only when the current head is an ancestor of the given one; it is exactly the checkout of the given branch, which becomes current with head at its commit |
| Merge.MergeIsThreeWay | gitlet/Repository.java:731-784 | merge reaches the three-way step exactly when the checks pass and the split point exists and is neither head; the result is then the three-way merge against the split point |
| Merge.CommittedEntry | gitlet/Repository.java:764-779 | committing the entry the loop leaves for an unstaged file records the blob the three-way rule names |
| Merge.MergeCommitSnapshot | gitlet/Repository.java:758-784 | the merge commit has the current head and the given head as parents and the message "Merged B into C."; its snapshot is the three-way result for every file; the working directory is the merged one; both stages are empty; the current branch moves; a conflict is reported exactly when some file conflicted |
| Merge.AllRemainChangesNothing | gitlet/Repository.java:763-777 | when every file REMAINs, the loop leaves the repository unchanged |
| Merge.NonRemainStages | gitlet/Repository.java:764-773 | a CHANGE or CONFLICT leaves the file staged, for addition or for removal |
| Merge.MergeNothingToCommit | gitlet/Repository.java:778-779 | the merge ends with "No changes added" and no commit exactly when every file in the union REMAINs |

## Left out

- Filesystem I/O and serialization (`readObject`, `writeObject`, `writeContentsInFile`, `clearDir`, `plainFilenamesIn`, directory creation): the stores, stages and working directory are maps and sets in one record.
- `gitlet/Utils.java` is not part of this model. SHA-1 (`sha1OfObject`, `sha1OfFile`) is the `Hasher` parameter, assumed collision-free through the `ValidHasher` precondition, and `restrictedDelete` is taken as a plain delete.
- `gitlet/Main.java` (argument counting and dispatch), `checkIsInitialized`, and init's "already exists" check: these are command-line plumbing with no state change to model.
- `status`, `global-log` and `find`: output formatting only.
- `log`: only the first-parent walk is modelled, not the printing.
- Date formatting (`getFormattedLogDate`): timestamps are integers, and a log entry takes the formatted date as a string.
- Remote commands (`add-remote`, `rm-remote`, `push`, `fetch`, `pull`, `changeCwd`, `copyCommit`): these copy files between directories. Only push's reachability test (`Graph.IsFastForward`) and fetch's history enumeration (`Graph.History`) are modelled.
- The finality of `Commit`'s fields (`gitlet/Commit.java:20-31`) holds by construction: Dafny datatypes are immutable.
- Graph.FirstParentLog: bounded by a `fuel` argument, because the source's loop stops only because histories are finite and acyclic, which the model does not assume.
- Merge.Merge: when the heads share no history the split point is null; both short-circuits fall through, because `Commit.equals` is false for a null argument (`gitlet/Commit.java:91`), and the source throws a NullPointerException at `splitCommit.getMapFromFilenameToId()` (`gitlet/Repository.java:758`) before any state changes; the model reports `NoSplitPoint` instead.
- Merge.MergeAtSplit: the short-circuits compare commit ids rather than the 32-bit hash codes `Commit.equals` uses (see Findings).
- Objects.JavaStringHash: states only the 32-bit range; its exact value is pinned down by the collision lemmas.
- Objects.NewCommit: "" marks a missing parent only for a hasher whose ids are never empty (`CommitIdsNonEmpty`); the 40-character length of a SHA-1 id is not modelled, because no function from all commits into strings of one length can be collision-free, and only non-emptiness is needed.
- Graph.BfsSearch: compares commits by id; the source's `HashSet<Commit>` compares them with `Commit.equals`, which looks only at the 32-bit hash codes of the ids, so for colliding ids (see Findings) the source can skip a commit the model visits.
- Graph.SplitPoint: built on the search above, so it shares its id comparison instead of the 32-bit hash-code one.
- Graph.IsFastForward: likewise tests membership by id rather than by `Commit.equals`.

## Findings

| source | as written | input that shows it | evidently intended | confidence | as-written member | corrected member |
|---|---|---|---|---|---|---|
| gitlet/Repository.java:663-668 | with `notRemote`, reset deletes every working file absent from the target commit, untracked ones included | after `init` with an untracked `notes.txt` in the working directory, `reset` to the initial commit deletes `notes.txt` | as the comment at line 663 says, delete only files the head commit tracks that the target lacks | high; not executed | Branches.ResetAsWritten (shown by Branches.ResetAsWrittenDeletesUntracked and Branches.ResetAsWrittenExample) | Branches.Reset |
| gitlet/Commit.java:86-97 | `equals` compares the 32-bit `String.hashCode` of the two ids | two commits whose ids are `933e73fb` followed by 32 zeros and `b8f65f7d` followed by 32 zeros: their 8-character prefixes both hash to 129041860, so the full ids both hash to 2417317316 (the Java `int` -1877649980), so `equals` holds for different commits, and merge's short-circuits and the BFS hash sets can confuse them | compare the ids themselves | medium (collisions need specific ids); not executed | Objects.CommitEqualsAsWritten (shown by Objects.EqualsAsWrittenConfusesDistinctCommits) | Objects.SameCommit (proved by Objects.SameCommitIsContentEquality) |
