/** Branch pointers and the commands that move the working directory between
    commits in gitlet/Repository.java: `branch`, `rm-branch`, the three forms
    of `checkout`, `reset`, the untracked-file guard and the resolution of
    abbreviated commit ids. */
module Branches {
  import opened Wrappers
  import opened Objects
  import opened Graph
  import opened Repository

  /** branch: a new pointer at the head commit; nothing else changes. */
  function CreateBranch(r: Repo, name: string): (res: Result<Repo, Error>)
    ensures res.Failure? <==> name in r.branches
    ensures res.Failure? ==> res.error == BranchExists
    ensures res.Success? ==>
      && res.value == r.(branches := res.value.branches)
      && res.value.branches.Keys == r.branches.Keys + {name}
      && res.value.branches[name] == r.head
      && forall b :: b in r.branches ==> res.value.branches[b] == r.branches[b]
  {
    if name in r.branches then Failure(BranchExists)
    else Success(r.(branches := r.branches[name := r.head]))
  }

  /** rm-branch: deletes a pointer other than the current one; no commit is
      touched. */
  function RemoveBranch(r: Repo, name: string): (res: Result<Repo, Error>)
    ensures res.Failure? <==> name !in r.branches || name == r.current
    ensures res.Failure? ==> res.error == (if name !in r.branches then BranchNotFound else CannotRemoveCurrentBranch)
    ensures res.Success? ==>
      && res.value == r.(branches := res.value.branches)
      && res.value.branches.Keys == r.branches.Keys - {name}
      && forall b :: b in res.value.branches ==> res.value.branches[b] == r.branches[b]
  {
    if name !in r.branches then Failure(BranchNotFound)
    else if r.current == name then Failure(CannotRemoveCurrentBranch)
    else Success(r.(branches := r.branches - {name}))
  }

  /** Creating a branch and removing it again restores the repository. */
  lemma RemoveUndoesCreate(h: Hasher, r: Repo, name: string)
    requires Valid(h, r) && name !in r.branches
    ensures CreateBranch(r, name).Success?
    ensures RemoveBranch(CreateBranch(r, name).value, name) == Success(r)
  {
    assert r.branches[name := r.head] - {name} == r.branches;
  }

  lemma CreateBranchPreservesValid(h: Hasher, r: Repo, name: string)
    requires Valid(h, r) && CreateBranch(r, name).Success?
    ensures Valid(h, CreateBranch(r, name).value)
  {
  }

  lemma RemoveBranchPreservesValid(h: Hasher, r: Repo, name: string)
    requires Valid(h, r) && RemoveBranch(r, name).Success?
    ensures Valid(h, RemoveBranch(r, name).value)
  {
  }

  // ---------------------------------------------------------------------
  // The untracked-file guard and the working-directory rewrite

  /** hasUntrackedFileToBeOverwritten: some working file is neither tracked
      by the head commit nor staged for addition, and the target commit
      tracks it. */
  predicate UntrackedInTheWay(cwd: set<string>, tracked: set<string>, staged: set<string>, needed: set<string>) {
    exists f :: f in cwd && f !in tracked && f !in staged && f in needed
  }

  /** The working directory with the files in `gone` deleted. */
  function DeleteFiles(cwd: map<string, Content>, gone: set<string>): (m: map<string, Content>)
    ensures forall f :: Lookup(m, f) == (if f in gone then None else Lookup(cwd, f))
  {
    map f | f in cwd.Keys - gone :: cwd[f]
  }

  /** The working directory with every file of `files` written from its blob. */
  function WriteFiles(blobs: map<BlobId, Content>, cwd: map<string, Content>, files: map<string, BlobId>)
    : (m: map<string, Content>)
    requires forall f :: f in files ==> files[f] in blobs
    ensures forall f :: Lookup(m, f) == (if f in files then Some(blobs[files[f]]) else Lookup(cwd, f))
  {
    map f | f in cwd.Keys + files.Keys :: if f in files then blobs[files[f]] else cwd[f]
  }

  /** The working directory after switching from a commit tracking
      `tracked` to one recording `files`: the new files written, files only
      the old commit tracked deleted, every other file kept. */
  function SwitchFiles(blobs: map<BlobId, Content>, cwd: map<string, Content>, tracked: set<string>,
                       files: map<string, BlobId>): (m: map<string, Content>)
    requires forall f :: f in files ==> files[f] in blobs
    ensures forall f :: f in files ==> f in m && m[f] == blobs[files[f]]
    ensures forall f :: f in tracked && f !in files ==> f !in m
    ensures forall f :: f !in tracked && f !in files ==> Lookup(m, f) == Lookup(cwd, f)
  {
    var m := WriteFiles(blobs, DeleteFiles(cwd, tracked - files.Keys), files);
    assert forall f :: f in files ==> Lookup(m, f) == Some(blobs[files[f]]);
    m
  }

  /** Makes `id` the head of `branch` with both stages cleared and the
      working directory `cwd`. */
  function MoveTo(r: Repo, id: CommitId, branch: string, cwd: map<string, Content>): (r': Repo)
    ensures r'.current == branch && r'.head == id && r'.branches == r.branches[branch := id]
    ensures r'.commits == r.commits && r'.blobs == r.blobs && r'.cwd == cwd
    ensures r'.addStage == map[] && r'.removeStage == {}
  {
    SetHeadAndBranch(r.(cwd := cwd, addStage := map[], removeStage := {}), id, branch)
  }

  /** Moving to a stored commit keeps the repository valid. */
  lemma MoveToPreservesValid(h: Hasher, r: Repo, id: CommitId, branch: string, cwd: map<string, Content>)
    requires Valid(h, r) && id in r.commits
    ensures Valid(h, MoveTo(r, id, branch, cwd))
  {
  }

  // ---------------------------------------------------------------------
  // checkout -- [file], checkout [commit id] -- [file], checkout [branch]

  /** Writes the version of `name` recorded in commit `c` into the working
      directory; nothing is staged. */
  function CheckoutFileFrom(r: Repo, c: Commit, name: string): (res: Result<Repo, Error>)
    requires forall f :: f in c.files ==> c.files[f] in r.blobs
    ensures res.Failure? <==> name !in c.files
    ensures res.Failure? ==> res.error == FileNotInCommit
    ensures res.Success? ==>
      && res.value == r.(cwd := res.value.cwd)
      && name in res.value.cwd && res.value.cwd[name] == r.blobs[c.files[name]]
      && forall f :: f != name ==> Lookup(res.value.cwd, f) == Lookup(r.cwd, f)
  {
    if name in c.files then Success(r.(cwd := r.cwd[name := r.blobs[c.files[name]]]))
    else Failure(FileNotInCommit)
  }

  /** checkout -- [file]: the head commit's version. */
  function CheckoutFile(h: Hasher, r: Repo, name: string): (res: Result<Repo, Error>)
    requires Valid(h, r)
    ensures res.Failure? <==> name !in HeadCommit(r).files
    ensures res.Success? ==>
      && res.value == r.(cwd := res.value.cwd)
      && name in res.value.cwd && h.blobId(res.value.cwd[name]) == HeadCommit(r).files[name]
      && forall f :: f != name ==> Lookup(res.value.cwd, f) == Lookup(r.cwd, f)
  {
    var res := CheckoutFileFrom(r, HeadCommit(r), name);
    if res.Success? then
      assert h.blobId(r.blobs[HeadCommit(r).files[name]]) == HeadCommit(r).files[name];
      res
    else res
  }

  /** Every id the commits directory lists names a stored commit. */
  ghost predicate ListsCommits(r: Repo, listing: seq<CommitId>) {
    forall i :: 0 <= i < |listing| ==> listing[i] in r.commits
  }

  /** findFullCommitId: the first id of the listing that starts with
      `shortId`, or None ("No commit with that id exists."). Ambiguous
      prefixes are not reported. */
  function FindFullCommitId(listing: seq<CommitId>, shortId: string): (r: Option<CommitId>)
    ensures r.None? <==> forall i :: 0 <= i < |listing| ==> !(shortId <= listing[i])
    ensures r.Some? ==> exists k :: 0 <= k < |listing| && listing[k] == r.value && shortId <= r.value
                                    && forall i :: 0 <= i < k ==> !(shortId <= listing[i])
  {
    if |listing| == 0 then None
    else if shortId <= listing[0] then Some(listing[0])
    else
      var r := FindFullCommitId(listing[1..], shortId);
      assert forall i :: 0 < i < |listing| ==> listing[i] == listing[1..][i - 1];
      if r.Some? then
        var k :| 0 <= k < |listing[1..]| && listing[1..][k] == r.value && shortId <= r.value
                 && forall i :: 0 <= i < k ==> !(shortId <= listing[1..][i]);
        assert listing[k + 1] == r.value;
        r
      else r
  }

  /** A full id resolves to itself when every listed id has that length;
      so merge, which passes a commit's full id to checkout, reads that
      commit. */
  lemma FullIdResolvesToItself(listing: seq<CommitId>, id: CommitId)
    requires id in listing
    requires forall i :: 0 <= i < |listing| ==> |listing[i]| == |id|
    ensures FindFullCommitId(listing, id) == Some(id)
  {
    var j :| 0 <= j < |listing| && listing[j] == id;
    assert id <= listing[j];
    var r := FindFullCommitId(listing, id);
    var k :| 0 <= k < |listing| && listing[k] == r.value && id <= r.value
             && forall i :: 0 <= i < k ==> !(id <= listing[i]);
    assert |r.value| == |id|;
    assert r.value == r.value[..|id|] == id;
  }

  /** Resolving the id a resolution returned gives that id back, whatever
      the lengths of the listed ids; so reset, which passes the resolved id
      to checkout where it is resolved again, reads the commit it resolved
      first. */
  lemma ResolveIsStable(listing: seq<CommitId>, shortId: string)
    requires FindFullCommitId(listing, shortId).Some?
    ensures FindFullCommitId(listing, FindFullCommitId(listing, shortId).value) == FindFullCommitId(listing, shortId)
  {
  }

  /** checkout [commit id] -- [file]. */
  function CheckoutFileAt(r: Repo, listing: seq<CommitId>, shortId: string, name: string)
    : (res: Result<Repo, Error>)
    requires ListsCommits(r, listing) && BlobsPresent(r.commits, r.blobs)
    ensures res.Failure? <==>
      FindFullCommitId(listing, shortId).None? || name !in r.commits[FindFullCommitId(listing, shortId).value].files
    ensures res.Success? ==>
      var id := FindFullCommitId(listing, shortId).value;
      && shortId <= id
      && res.value == r.(cwd := res.value.cwd)
      && name in res.value.cwd && res.value.cwd[name] == r.blobs[r.commits[id].files[name]]
      && forall f :: f != name ==> Lookup(res.value.cwd, f) == Lookup(r.cwd, f)
  {
    match FindFullCommitId(listing, shortId)
    case None => Failure(NoCommitWithId)
    case Some(id) =>
      assert exists k :: 0 <= k < |listing| && listing[k] == id;
      CheckoutFileFrom(r, r.commits[id], name)
  }

  /** checkout [branch]: refuses a missing branch, the current branch and an
      untracked file the target would overwrite; otherwise writes every file
      of the target commit, deletes the files tracked by the head commit but
      not by the target, clears both stages and makes the branch current. */
  function CheckoutBranch(h: Hasher, r: Repo, name: string): (res: Result<Repo, Error>)
    requires Valid(h, r)
    ensures res.Failure? <==>
      || name !in r.branches || name == r.current
      || UntrackedInTheWay(r.cwd.Keys, HeadCommit(r).files.Keys, r.addStage.Keys,
                           r.commits[r.branches[name]].files.Keys)
    ensures res.Success? ==>
      var r' := res.value;
      var target := r.commits[r.branches[name]];
      && r'.current == name && r'.head == r.branches[name] && r'.branches == r.branches
      && r'.commits == r.commits && r'.blobs == r.blobs
      && r'.addStage == map[] && r'.removeStage == {}
      && (forall f :: f in target.files ==> f in r'.cwd && r'.cwd[f] == r.blobs[target.files[f]])
      && (forall f :: f in HeadCommit(r).files && f !in target.files ==> f !in r'.cwd)
      && (forall f :: f !in HeadCommit(r).files && f !in target.files ==> Lookup(r'.cwd, f) == Lookup(r.cwd, f))
  {
    if name !in r.branches then Failure(NoSuchBranch)
    else if name == r.current then Failure(AlreadyOnBranch)
    else
      var id := r.branches[name];
      var target := r.commits[id];
      var tracked := HeadCommit(r).files.Keys;
      var needed := target.files.Keys;
      if UntrackedInTheWay(r.cwd.Keys, tracked, r.addStage.Keys, needed) then Failure(UntrackedFileInTheWay)
      else
        assert forall f :: f in target.files ==> target.files[f] in r.blobs;
        Success(MoveTo(r, id, name, SwitchFiles(r.blobs, r.cwd, tracked, target.files)))
  }

  /** The guard's promise: a checkout that goes ahead leaves every working
      file that is neither tracked nor staged exactly as it was. */
  lemma CheckoutKeepsUntracked(h: Hasher, r: Repo, name: string, f: string)
    requires Valid(h, r) && CheckoutBranch(h, r, name).Success?
    requires f in r.cwd && f !in HeadCommit(r).files && f !in r.addStage
    ensures f in CheckoutBranch(h, r, name).value.cwd
    ensures CheckoutBranch(h, r, name).value.cwd[f] == r.cwd[f]
  {
    assert Lookup(CheckoutBranch(h, r, name).value.cwd, f) == Lookup(r.cwd, f);
  }

  /** After a checkout every file the new head tracks is in the working
      directory with contents that hash to the recorded blob id. */
  lemma CheckoutRestoresSnapshot(h: Hasher, r: Repo, name: string, f: string)
    requires Valid(h, r) && CheckoutBranch(h, r, name).Success?
    requires f in HeadCommit(CheckoutBranch(h, r, name).value).files
    ensures f in CheckoutBranch(h, r, name).value.cwd
    ensures h.blobId(CheckoutBranch(h, r, name).value.cwd[f])
            == HeadCommit(CheckoutBranch(h, r, name).value).files[f]
  {
  }

  lemma CheckoutBranchPreservesValid(h: Hasher, r: Repo, name: string)
    requires Valid(h, r) && CheckoutBranch(h, r, name).Success?
    ensures Valid(h, CheckoutBranch(h, r, name).value)
  {
    MoveToPreservesValid(h, r, r.branches[name], name, CheckoutBranch(h, r, name).value.cwd);
  }

  // ---------------------------------------------------------------------
  // reset [commit id]

  /** reset as written: with `notRemote`, after the guard it deletes every
      working file the target does not track, tracked by the head commit or
      not; then writes the target's files, clears the stages and moves head
      and the current branch to the target. */
  function ResetAsWritten(h: Hasher, r: Repo, listing: seq<CommitId>, shortId: string, notRemote: bool)
    : (res: Result<Repo, Error>)
    requires Valid(h, r) && ListsCommits(r, listing)
    ensures res.Failure? <==>
      (|| FindFullCommitId(listing, shortId).None?
       || (notRemote && UntrackedInTheWay(r.cwd.Keys, HeadCommit(r).files.Keys, r.addStage.Keys,
                                          r.commits[FindFullCommitId(listing, shortId).value].files.Keys)))
    ensures res.Success? ==>
      var r' := res.value;
      var id := FindFullCommitId(listing, shortId).value;
      var target := r.commits[id];
      && Valid(h, r')
      && r'.head == id && r'.current == r.current && shortId <= id
      && r'.branches == r.branches[r.current := id]
      && r'.addStage == map[] && r'.removeStage == {}
      && (forall f :: f in target.files ==> f in r'.cwd && h.blobId(r'.cwd[f]) == target.files[f])
      && (notRemote ==> forall f :: f !in target.files ==> f !in r'.cwd)
      && (!notRemote ==> forall f :: f !in target.files ==> Lookup(r'.cwd, f) == Lookup(r.cwd, f))
  {
    match FindFullCommitId(listing, shortId)
    case None => Failure(NoCommitWithId)
    case Some(id) =>
      assert exists k :: 0 <= k < |listing| && listing[k] == id;
      var target := r.commits[id];
      var needed := target.files.Keys;
      if notRemote && UntrackedInTheWay(r.cwd.Keys, HeadCommit(r).files.Keys, r.addStage.Keys, needed) then
        Failure(UntrackedFileInTheWay)
      else
        assert forall f :: f in target.files ==> target.files[f] in r.blobs;
        var cwd := SwitchFiles(r.blobs, r.cwd, if notRemote then r.cwd.Keys else {}, target.files);
        MoveToPreservesValid(h, r, id, r.current, cwd);
        Success(MoveTo(r, id, r.current, cwd))
  }

  /** reset as intended: only files tracked by the head commit and absent
      from the target are deleted, exactly as checkout of a branch does. */
  function Reset(h: Hasher, r: Repo, listing: seq<CommitId>, shortId: string, notRemote: bool)
    : (res: Result<Repo, Error>)
    requires Valid(h, r) && ListsCommits(r, listing)
    ensures res.Failure? <==>
      (|| FindFullCommitId(listing, shortId).None?
       || (notRemote && UntrackedInTheWay(r.cwd.Keys, HeadCommit(r).files.Keys, r.addStage.Keys,
                                          r.commits[FindFullCommitId(listing, shortId).value].files.Keys)))
    ensures res.Success? ==>
      var r' := res.value;
      var id := FindFullCommitId(listing, shortId).value;
      var target := r.commits[id];
      && Valid(h, r')
      && r'.head == id && r'.current == r.current && shortId <= id
      && r'.branches == r.branches[r.current := id]
      && r'.addStage == map[] && r'.removeStage == {}
      && (forall f :: f in target.files ==> f in r'.cwd && h.blobId(r'.cwd[f]) == target.files[f])
      && (notRemote ==> forall f :: f in HeadCommit(r).files && f !in target.files ==> f !in r'.cwd)
      && (forall f :: f !in HeadCommit(r).files && f !in target.files ==> Lookup(r'.cwd, f) == Lookup(r.cwd, f))
      && (!notRemote ==> forall f :: f !in target.files ==> Lookup(r'.cwd, f) == Lookup(r.cwd, f))
  {
    match FindFullCommitId(listing, shortId)
    case None => Failure(NoCommitWithId)
    case Some(id) =>
      assert exists k :: 0 <= k < |listing| && listing[k] == id;
      var target := r.commits[id];
      var tracked := HeadCommit(r).files.Keys;
      var needed := target.files.Keys;
      if notRemote && UntrackedInTheWay(r.cwd.Keys, tracked, r.addStage.Keys, needed) then
        Failure(UntrackedFileInTheWay)
      else
        assert forall f :: f in target.files ==> target.files[f] in r.blobs;
        var cwd := SwitchFiles(r.blobs, r.cwd, if notRemote then tracked else {}, target.files);
        MoveToPreservesValid(h, r, id, r.current, cwd);
        Success(MoveTo(r, id, r.current, cwd))
  }

  /** The discrepancy: when reset goes ahead, a working file that is
      neither tracked, staged nor in the target is deleted by the code as
      written, although its comment promises to remove tracked files only;
      the intended reset keeps it untouched. */
  lemma ResetAsWrittenDeletesUntracked(h: Hasher, r: Repo, listing: seq<CommitId>, shortId: string, f: string)
    requires Valid(h, r) && ListsCommits(r, listing)
    requires ResetAsWritten(h, r, listing, shortId, true).Success?
    requires f in r.cwd && f !in HeadCommit(r).files
    requires f !in r.commits[FindFullCommitId(listing, shortId).value].files
    ensures f !in ResetAsWritten(h, r, listing, shortId, true).value.cwd
    ensures Reset(h, r, listing, shortId, true).Success?
    ensures f in Reset(h, r, listing, shortId, true).value.cwd
    ensures Reset(h, r, listing, shortId, true).value.cwd[f] == r.cwd[f]
  {
    var id := FindFullCommitId(listing, shortId).value;
    assert Lookup(ResetAsWritten(h, r, listing, shortId, true).value.cwd, f) == None;
    assert Lookup(Reset(h, r, listing, shortId, true).value.cwd, f) == Lookup(r.cwd, f);
  }

  /** A concrete instance: one commit tracking nothing, and a working
      directory holding only the untracked file "notes.txt". */
  lemma ResetAsWrittenExample(h: Hasher)
    requires ValidHasher(h)
    ensures var r := Init(h, map["notes.txt" := "draft"]);
      && ResetAsWritten(h, r, [r.head], r.head, true).Success?
      && "notes.txt" !in ResetAsWritten(h, r, [r.head], r.head, true).value.cwd
      && Reset(h, r, [r.head], r.head, true).Success?
      && Reset(h, r, [r.head], r.head, true).value.cwd == r.cwd
  {
    var r := Init(h, map["notes.txt" := "draft"]);
    assert r.head <= r.head;
    assert FindFullCommitId([r.head], r.head) == Some(r.head);
    assert !UntrackedInTheWay(r.cwd.Keys, HeadCommit(r).files.Keys, r.addStage.Keys, HeadCommit(r).files.Keys);
    ResetAsWrittenDeletesUntracked(h, r, [r.head], r.head, "notes.txt");
    var c := Reset(h, r, [r.head], r.head, true).value.cwd;
    assert forall f :: Lookup(c, f) == Lookup(r.cwd, f);
    assert c.Keys == r.cwd.Keys;
  }
}
