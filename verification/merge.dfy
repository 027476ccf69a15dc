/** The three-way merge of gitlet/Repository.java: the per-file comparison
    `isSameInCommit`, the decision `checkWhatToDoInMerge`, the file updates
    `changeFileTo` and `updateConflictFile`, and the `merge` command that
    strings them together and records a merge commit. */
module Merge {
  import opened Wrappers
  import opened Objects
  import opened Graph
  import opened Repository
  import opened Staging
  import opened Branches

  // ---------------------------------------------------------------------
  // Per-file classification

  /** isSameInCommit: the file is absent from both snapshots, or present in
      both under the same blob id. */
  function IsSameInCommit(name: string, a: map<string, BlobId>, b: map<string, BlobId>): (same: bool)
    ensures same <==> Lookup(a, name) == Lookup(b, name)
  {
    var inA := name in a;
    var inB := name in b;
    if inA && inB then a[name] == b[name] else !inA && !inB
  }

  /** Sameness is an equivalence relation on snapshots. */
  lemma IsSameIsEquivalence(name: string, a: map<string, BlobId>, b: map<string, BlobId>, c: map<string, BlobId>)
    ensures IsSameInCommit(name, a, a)
    ensures IsSameInCommit(name, a, b) ==> IsSameInCommit(name, b, a)
    ensures IsSameInCommit(name, a, b) && IsSameInCommit(name, b, c) ==> IsSameInCommit(name, a, c)
  {
  }

  /** What merge does with one file. */
  datatype Action = Remain | Change | Conflict

  /** checkWhatToDoInMerge: a conflict when all three versions differ, a
      change when only the given branch moved away from the split point,
      and otherwise the current version stays. */
  function CheckWhatToDo(name: string, current: map<string, BlobId>, split: map<string, BlobId>,
                         branch: map<string, BlobId>): (a: Action)
    ensures a == Conflict <==>
      && Lookup(current, name) != Lookup(split, name)
      && Lookup(current, name) != Lookup(branch, name)
      && Lookup(split, name) != Lookup(branch, name)
    ensures a == Change <==> Lookup(split, name) == Lookup(current, name) && Lookup(current, name) != Lookup(branch, name)
  {
    if && IsSameInCommit(name, current, split)
       && IsSameInCommit(name, current, branch)
       && IsSameInCommit(name, split, branch)
    then Remain
    else if && !IsSameInCommit(name, current, split)
            && !IsSameInCommit(name, current, branch)
            && !IsSameInCommit(name, split, branch)
    then Conflict
    else if IsSameInCommit(name, split, current) then Change
    else if IsSameInCommit(name, split, branch) then Remain
    else Remain
  }

  /** The decision table case by case: exactly one of the three pairwise
      checks holding, all of them, or none; two can never hold alone. */
  lemma DecisionTable(name: string, current: map<string, BlobId>, split: map<string, BlobId>, branch: map<string, BlobId>)
    ensures var sc := IsSameInCommit(name, split, current);
      var cb := IsSameInCommit(name, current, branch);
      var sb := IsSameInCommit(name, split, branch);
      && (sc && cb && sb ==> CheckWhatToDo(name, current, split, branch) == Remain)
      && (!sc && !cb && !sb ==> CheckWhatToDo(name, current, split, branch) == Conflict)
      && (sc && !cb && !sb ==> CheckWhatToDo(name, current, split, branch) == Change)
      && (!sc && !cb && sb ==> CheckWhatToDo(name, current, split, branch) == Remain)
      && (!sc && cb && !sb ==> CheckWhatToDo(name, current, split, branch) == Remain)
      && !((sc && cb && !sb) || (sc && !cb && sb) || (!sc && cb && sb))
  {
  }

  /** Away from conflicts the decision is the usual three-way rule: take
      the given branch's version when the current one still matches the
      split point, keep the current one otherwise. */
  lemma ThreeWayRule(name: string, current: map<string, BlobId>, split: map<string, BlobId>, branch: map<string, BlobId>)
    requires CheckWhatToDo(name, current, split, branch) != Conflict
    ensures (if CheckWhatToDo(name, current, split, branch) == Change then Lookup(branch, name) else Lookup(current, name))
         == (if Lookup(current, name) == Lookup(split, name) then Lookup(branch, name) else Lookup(current, name))
  {
  }

  // ---------------------------------------------------------------------
  // Conflict files

  const ConflictHead: string := "<<<<<<< HEAD\n"
  const ConflictMiddle: string := "=======\n"
  const ConflictTail: string := ">>>>>>>\n"

  /** The contents updateConflictFile writes (line separator "\n"). */
  function ConflictText(head: Content, other: Content): (t: Content)
    ensures |t| == |head| + |other| + 29
    ensures t[..13] == ConflictHead && t[|t| - 8..] == ConflictTail
    ensures t[13..13 + |head|] == head
    ensures t[13 + |head|..21 + |head|] == ConflictMiddle
    ensures t[21 + |head|..21 + |head| + |other|] == other
  {
    ConflictHead + head + ConflictMiddle + other + ConflictTail
  }

  /** A conflict file never equals the current version it replaces, so
      staging it always records a new blob. */
  lemma ConflictTextIsNew(head: Content, other: Content)
    ensures ConflictText(head, other) != head
  {
    assert |ConflictText(head, other)| > |head|;
  }

  /** The two sides can be read back from a conflict file once the length
      of the current side is known. */
  lemma ConflictTextSides(h1: Content, o1: Content, h2: Content, o2: Content)
    requires |h1| == |h2| && ConflictText(h1, o1) == ConflictText(h2, o2)
    ensures h1 == h2 && o1 == o2
  {
    var t := ConflictText(h1, o1);
    assert h1 == t[13..13 + |h1|] == h2;
    assert |o1| == |o2|;
    assert o1 == t[21 + |h1|..21 + |h1| + |o1|] == o2;
  }

  /** Every blob `c` refers to is in `blobs`. */
  ghost predicate FilesStored(blobs: map<BlobId, Content>, c: Commit) {
    forall f :: f in c.files ==> c.files[f] in blobs
  }

  /** getBlobContent: the file's contents in `c`, or "" when `c` lacks it. */
  function GetBlobContent(blobs: map<BlobId, Content>, c: Commit, name: string): (s: Content)
    requires FilesStored(blobs, c)
    ensures name !in c.files ==> s == ""
    ensures name in c.files ==> c.files[name] in blobs && s == blobs[c.files[name]]
  {
    if name in c.files then blobs[c.files[name]] else ""
  }

  // ---------------------------------------------------------------------
  // One file

  /** What the repository holds for one file name: the working file, the
      contents staged for addition, and whether removal is staged. */
  datatype Entry = Entry(file: Option<Content>, staged: Option<Content>, removed: bool)

  function At(r: Repo, f: string): Entry {
    Entry(Lookup(r.cwd, f), Lookup(r.addStage, f), f in r.removeStage)
  }

  /** The entry merge leaves for `name`, given the entry `e` it had: kept
      on REMAIN; on CHANGE the given branch's contents written and staged,
      or the file deleted and its removal staged; on CONFLICT the conflict
      file written and staged. */
  function MergeEntry(blobs: map<BlobId, Content>, head: Commit, split: Commit, branch: Commit,
                      name: string, e: Entry): Entry
    requires FilesStored(blobs, head) && FilesStored(blobs, branch)
  {
    match CheckWhatToDo(name, head.files, split.files, branch.files)
    case Remain => e
    case Change =>
      if name in branch.files then Entry(Some(blobs[branch.files[name]]), Some(blobs[branch.files[name]]), false)
      else Entry(None, None, true)
    case Conflict =>
      var t := ConflictText(GetBlobContent(blobs, head, name), GetBlobContent(blobs, branch, name));
      Entry(Some(t), Some(t), false)
  }

  /** Handling a file twice is handling it once. */
  lemma MergeEntryIdempotent(blobs: map<BlobId, Content>, head: Commit, split: Commit, branch: Commit,
                             name: string, e: Entry)
    requires FilesStored(blobs, head) && FilesStored(blobs, branch)
    ensures MergeEntry(blobs, head, split, branch, name, MergeEntry(blobs, head, split, branch, name, e))
         == MergeEntry(blobs, head, split, branch, name, e)
  {
  }

  /** A file merge leaves staged is never also staged for removal. */
  lemma MergeEntryConsistent(blobs: map<BlobId, Content>, head: Commit, split: Commit, branch: Commit,
                             name: string, e: Entry)
    requires FilesStored(blobs, head) && FilesStored(blobs, branch)
    requires !(e.staged.Some? && e.removed)
    ensures var e' := MergeEntry(blobs, head, split, branch, name, e);
      !(e'.staged.Some? && e'.removed)
  {
  }

  /** changeFileTo: the given branch's version checked out and added, or
      the file removed when the branch lacks it. */
  function ChangeFileTo(h: Hasher, r: Repo, branch: Commit, name: string): (r': Repo)
    requires Valid(h, r) && FilesStored(r.blobs, branch)
    requires Lookup(HeadCommit(r).files, name) != Lookup(branch.files, name)
    ensures Valid(h, r')
    ensures r' == r.(cwd := r'.cwd, addStage := r'.addStage, removeStage := r'.removeStage)
    ensures name in branch.files ==>
      At(r', name) == Entry(Some(r.blobs[branch.files[name]]), Some(r.blobs[branch.files[name]]), false)
    ensures name !in branch.files && name in HeadCommit(r).files ==> At(r', name) == Entry(None, None, true)
    ensures forall g :: g != name ==> At(r', g) == At(r, g)
  {
    if name in branch.files then
      TakeVersion(h, r, branch, name)
    else
      var res := Rm(r, name);
      if res.Success? then
        RmPreservesValid(h, r, name);
        res.value
      else r
  }

  /** The branch's version of a file written and staged for addition. */
  function TakeVersion(h: Hasher, r: Repo, branch: Commit, name: string): (r': Repo)
    requires Valid(h, r) && FilesStored(r.blobs, branch) && name in branch.files
    requires Lookup(HeadCommit(r).files, name) != Some(branch.files[name])
    ensures Valid(h, r')
    ensures r' == r.(cwd := r'.cwd, addStage := r'.addStage, removeStage := r'.removeStage)
    ensures At(r', name) == Entry(Some(r.blobs[branch.files[name]]), Some(r.blobs[branch.files[name]]), false)
    ensures forall g :: g != name ==> At(r', g) == At(r, g)
  {
    var r1 := CheckoutFileFrom(r, branch, name).value;
    var c := r.blobs[branch.files[name]];
    assert h.blobId(c) == branch.files[name];
    assert Valid(h, r1);
    AddPreservesValid(h, r1, name);
    Add(h, r1, name).value
  }

  /** updateConflictFile: the conflict file written and added. */
  function UpdateConflictFile(h: Hasher, r: Repo, branch: Commit, name: string): (r': Repo)
    requires Valid(h, r) && FilesStored(r.blobs, branch)
    ensures Valid(h, r')
    ensures r' == r.(cwd := r'.cwd, addStage := r'.addStage, removeStage := r'.removeStage)
    ensures var t := ConflictText(GetBlobContent(r.blobs, HeadCommit(r), name), GetBlobContent(r.blobs, branch, name));
      At(r', name) == Entry(Some(t), Some(t), false)
    ensures forall g :: g != name ==> At(r', g) == At(r, g)
  {
    var headContent := GetBlobContent(r.blobs, HeadCommit(r), name);
    var t := ConflictText(headContent, GetBlobContent(r.blobs, branch, name));
    var r1 := r.(cwd := r.cwd[name := t]);
    assert Valid(h, r1);
    ConflictNotTracked(h, r, GetBlobContent(r.blobs, branch, name), name);
    AddPreservesValid(h, r1, name);
    Add(h, r1, name).value
  }

  /** The conflict file never hashes to the blob the head commit tracks
      under that name, so add always stages it. */
  lemma ConflictNotTracked(h: Hasher, r: Repo, other: Content, name: string)
    requires Valid(h, r)
    ensures Lookup(HeadCommit(r).files, name)
            != Some(h.blobId(ConflictText(GetBlobContent(r.blobs, HeadCommit(r), name), other)))
  {
    var headContent := GetBlobContent(r.blobs, HeadCommit(r), name);
    if name in HeadCommit(r).files {
      ConflictTextIsNew(headContent, other);
      assert h.blobId(headContent) == HeadCommit(r).files[name];
    }
  }

  /** One pass of the merge loop body. */
  function MergeFile(h: Hasher, r: Repo, split: Commit, branch: Commit, name: string): (r': Repo)
    requires Valid(h, r) && FilesStored(r.blobs, branch)
    ensures Valid(h, r')
    ensures r' == r.(cwd := r'.cwd, addStage := r'.addStage, removeStage := r'.removeStage)
    ensures At(r', name) == MergeEntry(r.blobs, HeadCommit(r), split, branch, name, At(r, name))
    ensures forall g :: g != name ==> At(r', g) == At(r, g)
  {
    match CheckWhatToDo(name, HeadCommit(r).files, split.files, branch.files)
    case Remain => r
    case Change => ChangeFileTo(h, r, branch, name)
    case Conflict => UpdateConflictFile(h, r, branch, name)
  }

  // ---------------------------------------------------------------------
  // All files

  /** The merge loop over the names in the order the hash set yields them. */
  function MergeFiles(h: Hasher, r: Repo, split: Commit, branch: Commit, names: seq<string>): (r': Repo)
    requires Valid(h, r) && FilesStored(r.blobs, branch)
    ensures Valid(h, r')
    ensures r' == r.(cwd := r'.cwd, addStage := r'.addStage, removeStage := r'.removeStage)
    decreases |names|
  {
    if |names| == 0 then r
    else MergeFiles(h, MergeFile(h, r, split, branch, names[0]), split, branch, names[1..])
  }

  /** A map whose entries are `m`'s outside `names` and given by `v`
      inside it. */
  function Overlay(m: map<string, Content>, names: set<string>, v: map<string, Option<Content>>)
    : (m': map<string, Content>)
    requires names <= v.Keys
    ensures forall f :: Lookup(m', f) == (if f in names then v[f] else Lookup(m, f))
  {
    (map f | f in m && f !in names :: m[f]) + (map f | f in names && v[f].Some? :: v[f].value)
  }

  /** The state with the entries of the names in `entries` replaced. */
  function ApplyEntries(r: Repo, entries: map<string, Entry>): (r': Repo)
    ensures r' == r.(cwd := r'.cwd, addStage := r'.addStage, removeStage := r'.removeStage)
    ensures forall f :: At(r', f) == (if f in entries then entries[f] else At(r, f))
  {
    var names := entries.Keys;
    var cwd := Overlay(r.cwd, names, map f | f in names :: entries[f].file);
    var addStage := Overlay(r.addStage, names, map f | f in names :: entries[f].staged);
    var removeStage := (r.removeStage - names) + set f | f in names && entries[f].removed;
    r.(cwd := cwd, addStage := addStage, removeStage := removeStage)
  }

  /** Replacing entries by consistent ones keeps the repository valid. */
  lemma ApplyEntriesPreservesValid(h: Hasher, r: Repo, entries: map<string, Entry>)
    requires Valid(h, r)
    requires forall f :: f in entries ==> !(entries[f].staged.Some? && entries[f].removed)
    ensures Valid(h, ApplyEntries(r, entries))
  {
    var r' := ApplyEntries(r, entries);
    forall f | f in r'.addStage
      ensures f !in r'.removeStage
    {
      assert At(r', f).staged.Some?;
      if f !in entries {
        assert At(r', f) == At(r, f);
      }
    }
  }

  /** The entry merge assigns to each of `names`. */
  function MergeEntries(r: Repo, split: Commit, branch: Commit, names: set<string>): (entries: map<string, Entry>)
    requires r.head in r.commits && BlobsPresent(r.commits, r.blobs) && FilesStored(r.blobs, branch)
    requires r.addStage.Keys !! r.removeStage
    ensures entries.Keys == names
    ensures forall f :: f in entries ==> !(entries[f].staged.Some? && entries[f].removed)
  {
    var entries := map f | f in names :: MergeEntry(r.blobs, HeadCommit(r), split, branch, f, At(r, f));
    assert forall f :: f in entries ==> !(entries[f].staged.Some? && entries[f].removed) by {
      forall f | f in entries
        ensures !(entries[f].staged.Some? && entries[f].removed)
      {
        assert f !in r.addStage || f !in r.removeStage;
        MergeEntryConsistent(r.blobs, HeadCommit(r), split, branch, f, At(r, f));
      }
    }
    entries
  }

  /** The state after the loop, defined file by file without an order. */
  function MergeAllFiles(h: Hasher, r: Repo, split: Commit, branch: Commit, names: set<string>): (r': Repo)
    requires Valid(h, r) && FilesStored(r.blobs, branch)
    ensures Valid(h, r')
    ensures r' == r.(cwd := r'.cwd, addStage := r'.addStage, removeStage := r'.removeStage)
    ensures forall f ::
              At(r', f) ==
              (if f in names then MergeEntry(r.blobs, HeadCommit(r), split, branch, f, At(r, f)) else At(r, f))
  {
    var entries := MergeEntries(r, split, branch, names);
    ApplyEntriesPreservesValid(h, r, entries);
    ApplyEntries(r, entries)
  }

  /** Two states that differ nowhere are the same state. */
  lemma SameEntriesSameRepo(r1: Repo, r2: Repo)
    requires r1 == r2.(cwd := r1.cwd, addStage := r1.addStage, removeStage := r1.removeStage)
    requires forall f :: At(r1, f) == At(r2, f)
    ensures r1 == r2
  {
    forall f
      ensures Lookup(r1.cwd, f) == Lookup(r2.cwd, f) && Lookup(r1.addStage, f) == Lookup(r2.addStage, f)
      ensures f in r1.removeStage <==> f in r2.removeStage
    {
      assert At(r1, f) == At(r2, f);
    }
    MapsEqualByLookup(r1.cwd, r2.cwd);
    MapsEqualByLookup(r1.addStage, r2.addStage);
    assert r1.removeStage == r2.removeStage;
  }

  /** Maps with the same lookups are equal. */
  lemma MapsEqualByLookup(a: map<string, Content>, b: map<string, Content>)
    requires forall f :: Lookup(a, f) == Lookup(b, f)
    ensures a == b
  {
    forall f
      ensures f in a <==> f in b
      ensures f in a ==> a[f] == b[f]
    {
      assert Lookup(a, f) == Lookup(b, f);
    }
  }

  /** The loop handles each file on its own: after it, every listed file
      holds the entry merge assigns it and every other file is untouched,
      whatever the order and however often a name is listed. */
  lemma {:induction false} MergeFilesPointwise(h: Hasher, r: Repo, split: Commit, branch: Commit, names: seq<string>)
    requires Valid(h, r) && FilesStored(r.blobs, branch)
    ensures forall f ::
              At(MergeFiles(h, r, split, branch, names), f) ==
              (if f in names then MergeEntry(r.blobs, HeadCommit(r), split, branch, f, At(r, f)) else At(r, f))
    decreases |names|
  {
    if |names| > 0 {
      var r1 := MergeFile(h, r, split, branch, names[0]);
      MergeFilesPointwise(h, r1, split, branch, names[1..]);
      forall f
        ensures At(MergeFiles(h, r, split, branch, names), f) ==
          (if f in names then MergeEntry(r.blobs, HeadCommit(r), split, branch, f, At(r, f)) else At(r, f))
      {
        assert f in names <==> f == names[0] || f in names[1..];
        if f == names[0] {
          MergeEntryIdempotent(r.blobs, HeadCommit(r), split, branch, f, At(r, f));
        }
      }
    }
  }

  /** The loop ends in the order-free state, so the hash set's iteration
      order does not matter. */
  lemma MergeLoopIsOrderFree(h: Hasher, r: Repo, split: Commit, branch: Commit, names: seq<string>)
    requires Valid(h, r) && FilesStored(r.blobs, branch)
    ensures MergeFiles(h, r, split, branch, names) == MergeAllFiles(h, r, split, branch, set f | f in names)
  {
    MergeFilesPointwise(h, r, split, branch, names);
    SameEntriesSameRepo(MergeFiles(h, r, split, branch, names), MergeAllFiles(h, r, split, branch, set f | f in names));
  }

  // ---------------------------------------------------------------------
  // The merge command

  datatype MergeOutcome =
    | FastForwarded(repo: Repo)          // "Current branch fast-forwarded."
    | Merged(repo: Repo, conflict: bool) // a merge commit; "Encountered a merge conflict." when `conflict`

  predicate StagesEmpty(r: Repo) {
    r.addStage == map[] && r.removeStage == {}
  }

  /** Names of files some of the three snapshots track. */
  function AllFileNames(split: Commit, current: Commit, branch: Commit): set<string> {
    split.files.Keys + current.files.Keys + branch.files.Keys
  }

  /** The merge proper, once no short-circuit applies: every file of the
      three snapshots handled, then the merge commit with the given
      branch's head as second parent. */
  function ThreeWayMerge(h: Hasher, r: Repo, branchName: string, split: Commit, other: Commit, timestamp: int)
    : (res: Result<MergeOutcome, Error>)
    requires Valid(h, r) && h.commitId(other) in r.commits && FilesStored(r.blobs, other)
    ensures res.Success? ==> res.value.Merged? && Valid(h, res.value.repo)
    ensures res.Failure? ==> res.error == NoChangesAdded
  {
    var current := HeadCommit(r);
    var names := AllFileNames(split, current, other);
    var merged := MergeAllFiles(h, r, split, other, names);
    var conflict := exists f | f in names :: CheckWhatToDo(f, current.files, split.files, other.files) == Conflict;
    var message := "Merged " + branchName + " into " + r.current + ".";
    var committed := CommitChanges(h, merged, message, timestamp, Some(other));
    if committed.Success? then
      CommitPreservesValid(h, merged, message, timestamp, Some(other));
      Success(Merged(committed.value, conflict))
    else Failure(committed.error)
  }

  /** The checks merge makes before it looks for the split point: clean
      stages, another existing branch, and no working file the head commit
      does not track. */
  ghost predicate PassesChecks(r: Repo, branchName: string) {
    && StagesEmpty(r) && branchName in r.branches && branchName != r.current
    && r.head in r.commits
    && (forall f :: f in r.cwd ==> f in HeadCommit(r).files)
  }

  /** Merge goes past its short-circuits: the checks pass and the split
      point exists and is neither head. */
  ghost predicate ReachesThreeWay(r: Repo, branchName: string) {
    && PassesChecks(r, branchName)
    && Closed(r.commits) && r.branches[branchName] in r.commits
    && SplitPoint(r.commits, r.head, r.branches[branchName]).Some?
    && SplitPoint(r.commits, r.head, r.branches[branchName]).value != r.branches[branchName]
    && SplitPoint(r.commits, r.head, r.branches[branchName]).value != r.head
  }

  /** merge [branch name]: the checks on the stages and the branch name. */
  function Merge(h: Hasher, r: Repo, branchName: string, timestamp: int): (res: Result<MergeOutcome, Error>)
    requires Valid(h, r)
    ensures res.Success? ==> Valid(h, res.value.repo)
    ensures res == Failure(UncommittedChanges) <==> !StagesEmpty(r)
    ensures res == Failure(BranchNotFound) <==> StagesEmpty(r) && branchName !in r.branches
    ensures res == Failure(MergeWithItself) <==> StagesEmpty(r) && branchName == r.current
    ensures res == Failure(UntrackedFileInTheWay) <==>
      && StagesEmpty(r) && branchName in r.branches && branchName != r.current
      && exists f :: f in r.cwd && f !in HeadCommit(r).files
  {
    if !StagesEmpty(r) then Failure(UncommittedChanges)
    else if branchName !in r.branches then Failure(BranchNotFound)
    else if branchName == r.current then Failure(MergeWithItself)
    else MergeBranch(h, r, branchName, timestamp)
  }

  /** merge, continued: the untracked-file check, then the split point. */
  function MergeBranch(h: Hasher, r: Repo, branchName: string, timestamp: int): (res: Result<MergeOutcome, Error>)
    requires Valid(h, r) && StagesEmpty(r) && branchName in r.branches && branchName != r.current
    ensures res.Success? ==> Valid(h, res.value.repo)
    ensures res.Failure? ==> res.error !in {UncommittedChanges, BranchNotFound, MergeWithItself}
    ensures res == Failure(UntrackedFileInTheWay) <==> exists f :: f in r.cwd && f !in HeadCommit(r).files
  {
    if exists f | f in r.cwd :: f !in HeadCommit(r).files then Failure(UntrackedFileInTheWay)
    else MergeAtSplit(h, r, branchName, SplitPoint(r.commits, r.head, r.branches[branchName]), timestamp)
  }

  /** merge, continued: the two short-circuits, comparing each head with
      the split point by id, then the three-way merge. The source
      dereferences a missing split point; the model reports NoSplitPoint. */
  function MergeAtSplit(h: Hasher, r: Repo, branchName: string, split: Option<CommitId>, timestamp: int)
    : (res: Result<MergeOutcome, Error>)
    requires Valid(h, r) && PassesChecks(r, branchName)
    requires split.Some? ==> split.value in r.commits
    ensures res.Success? ==> Valid(h, res.value.repo)
    ensures res.Failure? ==> res.error in {NoSplitPoint, GivenBranchIsAncestor, NoChangesAdded}
  {
    var otherId := r.branches[branchName];
    var other := r.commits[otherId];
    if split.None? then Failure(NoSplitPoint)
    else if SameCommit(h, other, r.commits[split.value]) then Failure(GivenBranchIsAncestor)
    else if SameCommit(h, HeadCommit(r), r.commits[split.value]) then
      assert !UntrackedInTheWay(r.cwd.Keys, HeadCommit(r).files.Keys, r.addStage.Keys, other.files.Keys);
      CheckoutBranchPreservesValid(h, r, branchName);
      Success(FastForwarded(CheckoutBranch(h, r, branchName).value))
    else ThreeWayMerge(h, r, branchName, r.commits[split.value], other, timestamp)
  }

  /** The given branch is reported as an ancestor exactly when its head is
      an ancestor-or-self of the current head. */
  lemma MergeGivenBranchIsAncestor(h: Hasher, r: Repo, branchName: string, timestamp: int)
    requires Valid(h, r)
    ensures Merge(h, r, branchName, timestamp) == Failure(GivenBranchIsAncestor) <==>
      PassesChecks(r, branchName) && IsAncestor(r.commits, r.branches[branchName], r.head)
  {
    if PassesChecks(r, branchName) {
      var otherId := r.branches[branchName];
      var split := SplitPoint(r.commits, r.head, otherId);
      assert Merge(h, r, branchName, timestamp) == MergeAtSplit(h, r, branchName, split, timestamp);
      if split.Some? {
        assert SameCommit(h, r.commits[otherId], r.commits[split.value]) <==> split.value == otherId;
      }
    }
  }

  /** No split point is reported only for heads with disjoint histories. */
  lemma MergeNoSplitPoint(h: Hasher, r: Repo, branchName: string, timestamp: int)
    requires Valid(h, r)
    ensures Merge(h, r, branchName, timestamp) == Failure(NoSplitPoint) <==>
      PassesChecks(r, branchName) && AncestorSet(r.commits, r.head) !! AncestorSet(r.commits, r.branches[branchName])
  {
    if PassesChecks(r, branchName) {
      var split := SplitPoint(r.commits, r.head, r.branches[branchName]);
      assert Merge(h, r, branchName, timestamp) == MergeAtSplit(h, r, branchName, split, timestamp);
    }
  }

  /** A fast-forward happens only when the current head is an
      ancestor-or-self of the given one, and it is the checkout of the
      given branch, which becomes current. */
  lemma MergeFastForward(h: Hasher, r: Repo, branchName: string, timestamp: int)
    requires Valid(h, r)
    requires Merge(h, r, branchName, timestamp).Success? && Merge(h, r, branchName, timestamp).value.FastForwarded?
    ensures PassesChecks(r, branchName)
    ensures IsAncestor(r.commits, r.head, r.branches[branchName])
    ensures CheckoutBranch(h, r, branchName).Success?
    ensures Merge(h, r, branchName, timestamp).value.repo == CheckoutBranch(h, r, branchName).value
    ensures Merge(h, r, branchName, timestamp).value.repo.current == branchName
    ensures Merge(h, r, branchName, timestamp).value.repo.head == r.branches[branchName]
  {
    assert StagesEmpty(r) && branchName in r.branches && branchName != r.current;
    assert Merge(h, r, branchName, timestamp) == MergeBranch(h, r, branchName, timestamp);
    assert PassesChecks(r, branchName);
    var otherId := r.branches[branchName];
    var split := SplitPoint(r.commits, r.head, otherId);
    var res := MergeAtSplit(h, r, branchName, split, timestamp);
    assert Merge(h, r, branchName, timestamp) == res;
    assert split.Some? && SameCommit(h, HeadCommit(r), r.commits[split.value]);
    assert split.value == r.head;
  }

  /** Merge reaches the three-way merge exactly when it makes a merge
      commit or reports that nothing was staged, and then it is the
      three-way merge against the split point. */
  lemma MergeIsThreeWay(h: Hasher, r: Repo, branchName: string, timestamp: int)
    requires Valid(h, r)
    ensures var res := Merge(h, r, branchName, timestamp);
      (res.Success? && res.value.Merged?) || res == Failure(NoChangesAdded) <==> ReachesThreeWay(r, branchName)
    ensures ReachesThreeWay(r, branchName) ==>
      var otherId := r.branches[branchName];
      Merge(h, r, branchName, timestamp)
      == ThreeWayMerge(h, r, branchName, r.commits[SplitPoint(r.commits, r.head, otherId).value],
                       r.commits[otherId], timestamp)
  {
    if PassesChecks(r, branchName) {
      var otherId := r.branches[branchName];
      var split := SplitPoint(r.commits, r.head, otherId);
      assert Merge(h, r, branchName, timestamp) == MergeAtSplit(h, r, branchName, split, timestamp);
      if split.Some? {
        assert SameCommit(h, r.commits[otherId], r.commits[split.value]) <==> split.value == otherId;
        assert SameCommit(h, HeadCommit(r), r.commits[split.value]) <==> split.value == r.head;
      }
    }
  }

  // ---------------------------------------------------------------------
  // What a merge commit records

  /** The blob id the merge commit records for `name`: the current version
      on REMAIN, the given branch's version on CHANGE (none if it deleted
      the file), and the conflict file's hash on CONFLICT. */
  function MergedBlob(h: Hasher, blobs: map<BlobId, Content>, head: Commit, split: Commit, branch: Commit,
                      name: string): Option<BlobId>
    requires FilesStored(blobs, head) && FilesStored(blobs, branch)
  {
    match CheckWhatToDo(name, head.files, split.files, branch.files)
    case Remain => Lookup(head.files, name)
    case Change => Lookup(branch.files, name)
    case Conflict =>
      Some(h.blobId(ConflictText(GetBlobContent(blobs, head, name), GetBlobContent(blobs, branch, name))))
  }

  /** Committing the entry merge leaves for a file that was not staged
      records the blob MergedBlob names. */
  lemma CommittedEntry(h: Hasher, blobs: map<BlobId, Content>, head: Commit, split: Commit, branch: Commit,
                       name: string, e: Entry)
    requires BlobsAddressed(h, blobs) && FilesStored(blobs, head) && FilesStored(blobs, branch)
    requires e.staged.None? && !e.removed
    ensures var e' := MergeEntry(blobs, head, split, branch, name, e);
      (if e'.removed then None else if e'.staged.Some? then Some(h.blobId(e'.staged.value)) else Lookup(head.files, name))
      == MergedBlob(h, blobs, head, split, branch, name)
  {
    if name in branch.files {
      assert h.blobId(blobs[branch.files[name]]) == branch.files[name];
    }
  }

  /** A file no snapshot tracks is left alone. */
  lemma UntrackedEverywhereRemains(blobs: map<BlobId, Content>, head: Commit, split: Commit, branch: Commit,
                                   name: string, e: Entry)
    requires FilesStored(blobs, head) && FilesStored(blobs, branch)
    requires name !in AllFileNames(split, head, branch)
    ensures CheckWhatToDo(name, head.files, split.files, branch.files) == Remain
    ensures MergeEntry(blobs, head, split, branch, name, e) == e
  {
  }

  /** The merge commit: its parents are the two heads, its message names
      both branches, the current branch moves to it, and each file holds
      the blob the decision table picks, with the conflict file for a
      conflict. The working directory holds the same versions, and the
      conflict flag is set exactly when some file conflicted. */
  lemma MergeCommitSnapshot(h: Hasher, r: Repo, branchName: string, split: Commit, other: Commit, timestamp: int)
    requires Valid(h, r) && StagesEmpty(r) && h.commitId(other) in r.commits && FilesStored(r.blobs, other)
    requires ThreeWayMerge(h, r, branchName, split, other, timestamp).Success?
    ensures var res := ThreeWayMerge(h, r, branchName, split, other, timestamp).value;
      var r' := res.repo;
      && r'.head in r'.commits
      && HeadCommit(r').parent1 == r.head && HeadCommit(r').parent2 == h.commitId(other)
      && HeadCommit(r').message == "Merged " + branchName + " into " + r.current + "."
      && r'.current == r.current && r'.branches == r.branches[r.current := r'.head]
      && r'.addStage == map[] && r'.removeStage == {}
      && (forall f :: Lookup(HeadCommit(r').files, f) == MergedBlob(h, r.blobs, HeadCommit(r), split, other, f))
      && (forall f :: Lookup(r'.cwd, f) == MergeEntry(r.blobs, HeadCommit(r), split, other, f, At(r, f)).file)
      && (res.conflict <==>
            exists f :: f in AllFileNames(split, HeadCommit(r), other)
                        && CheckWhatToDo(f, HeadCommit(r).files, split.files, other.files) == Conflict)
  {
    var current := HeadCommit(r);
    var names := AllFileNames(split, current, other);
    var merged := MergeAllFiles(h, r, split, other, names);
    var message := "Merged " + branchName + " into " + r.current + ".";
    var r' := CommitChanges(h, merged, message, timestamp, Some(other)).value;
    forall f
      ensures Lookup(HeadCommit(r').files, f) == MergedBlob(h, r.blobs, current, split, other, f)
      ensures Lookup(r'.cwd, f) == MergeEntry(r.blobs, current, split, other, f, At(r, f)).file
    {
      if f !in names {
        UntrackedEverywhereRemains(r.blobs, current, split, other, f, At(r, f));
      }
      CommittedEntry(h, r.blobs, current, split, other, f, At(r, f));
    }
  }

  /** When every file REMAINs the loop changes nothing. */
  lemma AllRemainChangesNothing(h: Hasher, r: Repo, split: Commit, other: Commit, names: set<string>)
    requires Valid(h, r) && FilesStored(r.blobs, other)
    requires forall f :: f in names ==> CheckWhatToDo(f, HeadCommit(r).files, split.files, other.files) == Remain
    ensures MergeAllFiles(h, r, split, other, names) == r
  {
    var merged := MergeAllFiles(h, r, split, other, names);
    forall f
      ensures At(merged, f) == At(r, f)
    {
    }
    SameEntriesSameRepo(merged, r);
  }

  /** A CHANGE or CONFLICT stages the file, for addition or removal. */
  lemma NonRemainStages(h: Hasher, r: Repo, split: Commit, other: Commit, names: set<string>, f: string)
    requires Valid(h, r) && FilesStored(r.blobs, other)
    requires f in names && CheckWhatToDo(f, HeadCommit(r).files, split.files, other.files) != Remain
    ensures var merged := MergeAllFiles(h, r, split, other, names);
      f in merged.addStage || f in merged.removeStage
  {
    var merged := MergeAllFiles(h, r, split, other, names);
    assert At(merged, f).staged.Some? || At(merged, f).removed;
  }

  /** When every file REMAINs the closing commit reports NoChangesAdded
      (and by AllRemainChangesNothing the loop has changed nothing); any
      CHANGE or CONFLICT stages something, so a merge commit is made. */
  lemma MergeNothingToCommit(h: Hasher, r: Repo, branchName: string, split: Commit, other: Commit, timestamp: int)
    requires Valid(h, r) && StagesEmpty(r) && h.commitId(other) in r.commits && FilesStored(r.blobs, other)
    ensures ThreeWayMerge(h, r, branchName, split, other, timestamp) == Failure(NoChangesAdded) <==>
      forall f :: f in AllFileNames(split, HeadCommit(r), other) ==>
        CheckWhatToDo(f, HeadCommit(r).files, split.files, other.files) == Remain
  {
    var current := HeadCommit(r);
    var names := AllFileNames(split, current, other);
    var merged := MergeAllFiles(h, r, split, other, names);
    assert ThreeWayMerge(h, r, branchName, split, other, timestamp) == Failure(NoChangesAdded) <==> StagesEmpty(merged);
    if forall f :: f in names ==> CheckWhatToDo(f, current.files, split.files, other.files) == Remain {
      AllRemainChangesNothing(h, r, split, other, names);
    } else {
      var f :| f in names && CheckWhatToDo(f, current.files, split.files, other.files) != Remain;
      NonRemainStages(h, r, split, other, names, f);
    }
  }
}
