/** The staging area of gitlet/Repository.java: `add`, `rm` and `commit`,
    which turns the head commit's snapshot plus both stages into a new commit. */
module Staging {
  import opened Wrappers
  import opened Objects
  import opened Graph
  import opened Repository

  /** add: stages the working file's contents, unless they hash to the blob
      the head commit already records, in which case any staged copy is
      dropped; either way the name leaves the remove-stage. */
  function Add(h: Hasher, r: Repo, name: string): (res: Result<Repo, Error>)
    requires Valid(h, r)
    ensures res.Failure? <==> name !in r.cwd
    ensures res.Failure? ==> res.error == FileDoesNotExist
    ensures res.Success? ==>
      var r' := res.value;
      && r' == r.(addStage := r'.addStage, removeStage := r'.removeStage)
      && r'.removeStage == r.removeStage - {name}
      && (name in r'.addStage <==> Lookup(HeadCommit(r).files, name) != Some(h.blobId(r.cwd[name])))
      && (name in r'.addStage ==> r'.addStage[name] == r.cwd[name])
      && (forall f :: f != name ==> Lookup(r'.addStage, f) == Lookup(r.addStage, f))
  {
    if name !in r.cwd then Failure(FileDoesNotExist)
    else
      var content := r.cwd[name];
      var removeStage := r.removeStage - {name};
      if Lookup(HeadCommit(r).files, name) == Some(h.blobId(content)) then
        Success(r.(addStage := r.addStage - {name}, removeStage := removeStage))
      else
        Success(r.(addStage := r.addStage[name := content], removeStage := removeStage))
  }

  /** rm: unstages a staged file; if the head commit tracks it, deletes it
      from the working directory and stages its removal. */
  function Rm(r: Repo, name: string): (res: Result<Repo, Error>)
    requires r.head in r.commits
    ensures res.Failure? <==> name !in r.addStage && name !in HeadCommit(r).files
    ensures res.Failure? ==> res.error == NoReasonToRemove
    ensures res.Success? ==>
      var r' := res.value;
      && r' == r.(addStage := r'.addStage, removeStage := r'.removeStage, cwd := r'.cwd)
      && r'.addStage == r.addStage - {name}
      && (name in HeadCommit(r).files ==> r'.removeStage == r.removeStage + {name} && r'.cwd == r.cwd - {name})
      && (name !in HeadCommit(r).files ==> r'.removeStage == r.removeStage && r'.cwd == r.cwd)
  {
    var staged := name in r.addStage;
    var tracked := name in HeadCommit(r).files;
    if !staged && !tracked then Failure(NoReasonToRemove)
    else
      var r1 := r.(addStage := r.addStage - {name});
      if tracked then Success(r1.(cwd := r1.cwd - {name}, removeStage := r1.removeStage + {name}))
      else Success(r1)
  }

  /** The snapshot of a new commit: the parent's map with every staged file
      put under the hash of its staged contents, then every name of the
      remove-stage taken out. */
  function Snapshot(h: Hasher, files: map<string, BlobId>, addStage: map<string, Content>,
                    removeStage: set<string>): (m: map<string, BlobId>)
    ensures forall f :: Lookup(m, f) ==
                          (if f in removeStage then None
                           else if f in addStage then Some(h.blobId(addStage[f]))
                           else Lookup(files, f))
  {
    map f | f in (files.Keys + addStage.Keys) - removeStage ::
      if f in addStage then h.blobId(addStage[f]) else files[f]
  }

  /** The blob store after commit: every staged file's contents filed under
      their hash, earlier blobs kept. */
  function StoreBlobs(h: Hasher, blobs: map<BlobId, Content>, addStage: map<string, Content>)
    : (b: map<BlobId, Content>)
    requires BlobIdsInjective(h)
    ensures blobs.Keys <= b.Keys
    ensures forall f :: f in addStage ==> h.blobId(addStage[f]) in b && b[h.blobId(addStage[f])] == addStage[f]
    ensures BlobsAddressed(h, blobs) ==> BlobsAddressed(h, b)
  {
    blobs + map f | f in addStage :: h.blobId(addStage[f]) := addStage[f]
  }

  /** The commit `commit` would create. */
  function StagedCommit(h: Hasher, r: Repo, message: string, timestamp: int, parent2: Option<Commit>): Commit
    requires r.head in r.commits
  {
    NewCommit(h, message, timestamp, Snapshot(h, HeadCommit(r).files, r.addStage, r.removeStage),
              Some(HeadCommit(r)), parent2)
  }

  /** commit (with `parent2` the other head for a merge commit, None otherwise):
      with both stages empty nothing happens; otherwise the staged blobs are
      stored, the new commit is filed under its hash, head and the current
      branch move to it, both stages are emptied, and every commit stored
      before stays stored unchanged. */
  function CommitChanges(h: Hasher, r: Repo, message: string, timestamp: int, parent2: Option<Commit>)
    : (res: Result<Repo, Error>)
    requires Valid(h, r)
    ensures res.Failure? <==> r.addStage == map[] && r.removeStage == {}
    ensures res.Failure? ==> res.error == NoChangesAdded
    ensures res.Success? ==>
      var r' := res.value;
      && r'.head in r'.commits && h.commitId(HeadCommit(r')) == r'.head
      && HeadCommit(r').parent1 == r.head && HeadCommit(r').parent2 == ParentId(h, parent2)
      && HeadCommit(r').message == message && HeadCommit(r').timestamp == timestamp
      && (forall f :: Lookup(HeadCommit(r').files, f) ==
            (if f in r.removeStage then None
             else if f in r.addStage then Some(h.blobId(r.addStage[f]))
             else Lookup(HeadCommit(r).files, f)))
      && r'.addStage == map[] && r'.removeStage == {}
      && r'.current == r.current && r'.branches == r.branches[r.current := r'.head]
      && r'.cwd == r.cwd
      && (forall id :: id in r.commits ==> id in r'.commits && r'.commits[id] == r.commits[id])
  {
    if r.addStage == map[] && r.removeStage == {} then Failure(NoChangesAdded)
    else
      var c := StagedCommit(h, r, message, timestamp, parent2);
      var id := h.commitId(c);
      KeepsStoredCommits(h, r.commits, c);
      var r1 := r.(commits := r.commits[id := c], blobs := StoreBlobs(h, r.blobs, r.addStage),
                   addStage := map[], removeStage := {});
      Success(SetHeadAndBranch(r1, id, r.current))
  }

  /** Filing a commit under its own hash never replaces a different commit. */
  lemma KeepsStoredCommits(h: Hasher, commits: Store, c: Commit)
    requires CommitIdsValid(h) && ContentAddressed(h, commits)
    ensures forall id :: id in commits ==> commits[h.commitId(c) := c][id] == commits[id]
  {
    forall id | id in commits
      ensures commits[h.commitId(c) := c][id] == commits[id]
    {
      if id == h.commitId(c) {
        assert h.commitId(commits[id]) == h.commitId(c);
      }
    }
  }

  // ---------------------------------------------------------------------
  // Invariant preservation

  lemma AddPreservesValid(h: Hasher, r: Repo, name: string)
    requires Valid(h, r) && Add(h, r, name).Success?
    ensures Valid(h, Add(h, r, name).value)
  {
  }

  lemma RmPreservesValid(h: Hasher, r: Repo, name: string)
    requires Valid(h, r) && Rm(r, name).Success?
    ensures Valid(h, Rm(r, name).value)
  {
  }

  /** A commit whose second parent is stored keeps the repository valid. */
  lemma CommitPreservesValid(h: Hasher, r: Repo, message: string, timestamp: int, parent2: Option<Commit>)
    requires Valid(h, r) && CommitChanges(h, r, message, timestamp, parent2).Success?
    requires parent2.Some? ==> h.commitId(parent2.value) in r.commits
    ensures Valid(h, CommitChanges(h, r, message, timestamp, parent2).value)
  {
    var r' := CommitChanges(h, r, message, timestamp, parent2).value;
    var c := HeadCommit(r');
    assert Parents(c) <= r.commits.Keys;
    assert Closed(r'.commits) by {
      forall id | id in r'.commits
        ensures Parents(r'.commits[id]) <= r'.commits.Keys
      {
        if id != r'.head {
          assert id in r.commits;
        }
      }
    }
    assert BlobsPresent(r'.commits, r'.blobs) by {
      forall id, f | id in r'.commits && f in r'.commits[id].files
        ensures r'.commits[id].files[f] in r'.blobs
      {
        if id == r'.head {
          assert Lookup(c.files, f).Some?;
          if f !in r.addStage {
            assert f in HeadCommit(r).files;
          }
        } else {
          assert id in r.commits;
        }
      }
    }
  }

  // ---------------------------------------------------------------------
  // Round trips through commit

  /** Adding a file and committing records exactly its working contents:
      the new head tracks it under a blob holding those contents. */
  lemma AddThenCommit(h: Hasher, r: Repo, name: string, message: string, timestamp: int)
    requires Valid(h, r) && name in r.cwd
    requires CommitChanges(h, Add(h, r, name).value, message, timestamp, None).Success?
    ensures var r2 := CommitChanges(h, Add(h, r, name).value, message, timestamp, None).value;
      && name in HeadCommit(r2).files
      && HeadCommit(r2).files[name] in r2.blobs
      && r2.blobs[HeadCommit(r2).files[name]] == r.cwd[name]
  {
    var r1 := Add(h, r, name).value;
    AddPreservesValid(h, r, name);
    CommitPreservesValid(h, r1, message, timestamp, None);
    var r2 := CommitChanges(h, r1, message, timestamp, None).value;
    assert Lookup(HeadCommit(r2).files, name).Some?;
    var b := HeadCommit(r2).files[name];
    assert b == h.blobId(r.cwd[name]);
    assert h.blobId(r2.blobs[b]) == b;
  }

  /** Removing a tracked file and committing drops it from the snapshot. */
  lemma RmThenCommit(h: Hasher, r: Repo, name: string, message: string, timestamp: int)
    requires Valid(h, r) && name in HeadCommit(r).files
    ensures Rm(r, name).Success?
    ensures CommitChanges(h, Rm(r, name).value, message, timestamp, None).Success?
    ensures name !in HeadCommit(CommitChanges(h, Rm(r, name).value, message, timestamp, None).value).files
  {
    RmPreservesValid(h, r, name);
    var r2 := CommitChanges(h, Rm(r, name).value, message, timestamp, None).value;
    assert Lookup(HeadCommit(r2).files, name) == None;
  }

  /** Adding the same file twice is adding it once. */
  lemma AddIdempotent(h: Hasher, r: Repo, name: string)
    requires Valid(h, r) && name in r.cwd
    ensures Valid(h, Add(h, r, name).value)
    ensures Add(h, Add(h, r, name).value, name) == Add(h, r, name)
  {
    AddPreservesValid(h, r, name);
    var r1 := Add(h, r, name).value;
    var content := r.cwd[name];
    assert r1.head == r.head && r1.commits == r.commits && r1.cwd == r.cwd;
    var same := Lookup(HeadCommit(r).files, name) == Some(h.blobId(content));
    var stage := if same then r.addStage - {name} else r.addStage[name := content];
    assert r1 == r.(addStage := stage, removeStage := r.removeStage - {name});
    RestageAgain(stage, name, content, same);
    SetWithoutAbsent(r1.removeStage, name);
    assert Add(h, r1, name).value == r1.(addStage := stage, removeStage := r1.removeStage);
  }

  /** Staging again what the stage already says changes nothing. */
  lemma RestageAgain(stage: map<string, Content>, name: string, content: Content, same: bool)
    requires same ==> name !in stage
    requires !same ==> name in stage && stage[name] == content
    ensures (if same then stage - {name} else stage[name := content]) == stage
  {
  }

  lemma SetWithoutAbsent(s: set<string>, x: string)
    requires x !in s
    ensures s - {x} == s
  {
  }

  /** Staging for addition and then removal leaves an untracked file
      neither staged nor deleted. */
  lemma AddThenRmUntracked(h: Hasher, r: Repo, name: string)
    requires Valid(h, r) && name in r.cwd && name !in HeadCommit(r).files
    ensures Rm(Add(h, r, name).value, name).Success?
    ensures var r2 := Rm(Add(h, r, name).value, name).value;
      && name !in r2.addStage && name !in r2.removeStage && r2.cwd == r.cwd
  {
  }
}
