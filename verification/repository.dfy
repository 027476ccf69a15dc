/** The repository state of gitlet/Repository.java: the commit store, the
    blob store, branch pointers, the current branch and head, both staging
    areas and the working directory, together with the invariant every
    command keeps. */
module Repository {
  import opened Wrappers
  import opened Objects
  import opened Graph

  /** The message a command prints before returning without changing anything. */
  datatype Error =
    | FileDoesNotExist            // add: "File does not exist."
    | NoChangesAdded              // commit: "No changes added to the commit."
    | NoReasonToRemove            // rm: "No reason to remove the file."
    | BranchExists                // branch: "A branch with that name already exists."
    | NoSuchBranch                // checkout: "No such branch exists."
    | AlreadyOnBranch             // checkout: "No need to checkout the current branch."
    | BranchNotFound              // rm-branch, merge: "A branch with that name does not exist."
    | CannotRemoveCurrentBranch   // rm-branch: "Cannot remove the current branch."
    | UntrackedFileInTheWay       // checkout, reset, merge
    | NoCommitWithId              // reset, checkout: "No commit with that id exists."
    | FileNotInCommit             // checkout: "File does not exist in that commit."
    | UncommittedChanges          // merge: "You have uncommitted changes."
    | MergeWithItself             // merge: "Cannot merge a branch with itself."
    | GivenBranchIsAncestor       // merge: "Given branch is an ancestor of the current branch."
    | NoSplitPoint                // merge: the two heads share no history (the source dereferences null)

  /** The `.gitlet` directory and the working directory around it.
      `addStage` maps a file name to the contents staged for it;
      `removeStage` holds the names staged for removal. */
  datatype Repo = Repo(
    commits: Store,
    blobs: map<BlobId, Content>,
    branches: map<string, CommitId>,
    current: string,
    head: CommitId,
    addStage: map<string, Content>,
    removeStage: set<string>,
    cwd: map<string, Content>)

  /** Every blob is filed under the hash of its contents. */
  ghost predicate BlobsAddressed(h: Hasher, blobs: map<BlobId, Content>) {
    forall b :: b in blobs ==> h.blobId(blobs[b]) == b
  }

  /** Every blob a stored commit refers to is in the blob store. */
  ghost predicate BlobsPresent(commits: Store, blobs: map<BlobId, Content>) {
    forall id, f :: id in commits && f in commits[id].files ==> commits[id].files[f] in blobs
  }

  /** The repository invariant: hashing is collision-free, both stores are
      content-addressed, parents and blobs are never dangling, branches point
      at stored commits, head is the current branch's pointer, and no name is
      staged both ways. */
  ghost predicate Valid(h: Hasher, r: Repo) {
    && ValidHasher(h)
    && Closed(r.commits) && ContentAddressed(h, r.commits)
    && BlobsAddressed(h, r.blobs) && BlobsPresent(r.commits, r.blobs)
    && (forall b :: b in r.branches ==> r.branches[b] in r.commits)
    && r.current in r.branches && r.branches[r.current] == r.head
    && r.addStage.Keys !! r.removeStage
  }

  /** The commit head names (getLatestCommit). */
  function HeadCommit(r: Repo): Commit
    requires r.head in r.commits
  {
    r.commits[r.head]
  }

  /** The contents of a stored blob. */
  function BlobContent(r: Repo, b: BlobId): Content
    requires b in r.blobs
  {
    r.blobs[b]
  }

  /** setHeadAndBranch: the named branch becomes current and both it and head
      point at `id`; other branches keep their pointers. */
  function SetHeadAndBranch(r: Repo, id: CommitId, branch: string): (r': Repo)
    ensures r'.branches.Keys == r.branches.Keys + {branch}
    ensures r'.head == id && r'.current == branch && r'.branches[r'.current] == r'.head
    ensures forall b :: b in r.branches && b != branch ==> r'.branches[b] == r.branches[b]
    ensures r'.commits == r.commits && r'.blobs == r.blobs && r'.cwd == r.cwd
    ensures r'.addStage == r.addStage && r'.removeStage == r.removeStage
  {
    r.(current := branch, branches := r.branches[branch := id], head := id)
  }

  /** The initial commit: message "initial commit", time zero, no files, no parents. */
  function InitialCommit(h: Hasher): (c: Commit)
    ensures c.files == map[] && c.parent1 == "" && c.parent2 == ""
    ensures Parents(c) == {}
  {
    NewCommit(h, "initial commit", 0, map[], None, None)
  }

  /** init: one commit, one branch "master" pointing at it, empty stages;
      the working directory is left as it is. */
  function Init(h: Hasher, cwd: map<string, Content>): (r: Repo)
    requires ValidHasher(h)
    ensures Valid(h, r)
    ensures r.current == "master" && r.branches.Keys == {"master"}
    ensures r.commits.Keys == {r.head} && HeadCommit(r) == InitialCommit(h)
    ensures r.addStage == map[] && r.removeStage == {} && r.cwd == cwd
  {
    var c := InitialCommit(h);
    var id := h.commitId(c);
    var r := Repo(map[id := c], map[], map[], "", "", map[], {}, cwd);
    SetHeadAndBranch(r, id, "master")
  }
}
