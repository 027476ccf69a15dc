/** The object model of gitlet/Commit.java: immutable commits that name their
    parents by content hash, the hash functions themselves, parent
    dereferencing, commit equality and the log header of one commit. */
module Objects {
  import opened Wrappers

  /** A commit id: the hex SHA-1 of a serialized commit. */
  type CommitId = string
  /** A blob id: the hex SHA-1 of a file's contents. */
  type BlobId = string
  /** The contents of a working file, a staged file or a blob. */
  type Content = string

  /** A commit. `files` maps file names to blob ids; a parent id is "" when
      the commit has no such parent. A Dafny datatype value never changes,
      so the fields the source declares `final` stay fixed by construction. */
  datatype Commit = Commit(
    message: string,
    timestamp: int,
    files: map<string, BlobId>,
    parent1: CommitId,
    parent2: CommitId)

  /** SHA-1 over serialized commits and over file contents. The digest
      itself is not modelled: every operation that hashes takes one of these. */
  datatype Hasher = Hasher(commitId: Commit -> CommitId, blobId: Content -> BlobId)

  /** A commit id is never empty: a SHA-1 digest always has 40 hex
      characters, so "" is free to mean "no parent". */
  ghost predicate CommitIdsNonEmpty(h: Hasher) {
    forall c :: h.commitId(c) != ""
  }

  /** Commit ids are non-empty and distinct commits hash apart. The digest
      length is not fixed here: no function from all commits into strings
      of one length can be collision-free. */
  ghost predicate CommitIdsValid(h: Hasher) {
    && CommitIdsNonEmpty(h)
    && (forall a, b :: h.commitId(a) == h.commitId(b) ==> a == b)
  }

  /** Distinct contents get distinct blob ids. */
  ghost predicate BlobIdsInjective(h: Hasher) {
    forall x, y :: h.blobId(x) == h.blobId(y) ==> x == y
  }

  /** The assumption the whole design rests on: SHA-1 does not collide. */
  ghost predicate ValidHasher(h: Hasher) {
    CommitIdsValid(h) && BlobIdsInjective(h)
  }

  /** Every commit of `store` is filed under its own content hash. */
  ghost predicate ContentAddressed(h: Hasher, store: map<CommitId, Commit>) {
    forall id :: id in store ==> h.commitId(store[id]) == id
  }

  /** The id a commit records for a parent argument that may be null. */
  function ParentId(h: Hasher, parent: Option<Commit>): CommitId {
    match parent
    case None => ""
    case Some(p) => h.commitId(p)
  }

  /** The constructor: a parent id is "" for a missing parent and the
      parent's content hash otherwise. */
  function NewCommit(h: Hasher, message: string, timestamp: int, files: map<string, BlobId>,
                     parent1: Option<Commit>, parent2: Option<Commit>): (c: Commit)
    ensures c.message == message && c.timestamp == timestamp && c.files == files
    ensures CommitIdsNonEmpty(h) ==> (c.parent1 == "" <==> parent1.None?)
    ensures CommitIdsNonEmpty(h) ==> (c.parent2 == "" <==> parent2.None?)
    ensures parent1.Some? ==> c.parent1 == h.commitId(parent1.value)
    ensures parent2.Some? ==> c.parent2 == h.commitId(parent2.value)
  {
    Commit(message, timestamp, files, ParentId(h, parent1), ParentId(h, parent2))
  }

  /** The ids of the parents a commit actually has. */
  function Parents(c: Commit): set<CommitId> {
    (if c.parent1 == "" then {} else {c.parent1}) + (if c.parent2 == "" then {} else {c.parent2})
  }

  /** Dereferences the first parent id through the commit store. */
  function GetParent1(store: map<CommitId, Commit>, c: Commit): (r: Option<Commit>)
    requires c.parent1 == "" || c.parent1 in store
    ensures r.None? <==> c.parent1 == ""
    ensures r.Some? ==> c.parent1 in Parents(c) && store[c.parent1] == r.value
  {
    if c.parent1 == "" then None else Some(store[c.parent1])
  }

  /** Dereferences the second parent id through the commit store. */
  function GetParent2(store: map<CommitId, Commit>, c: Commit): (r: Option<Commit>)
    requires c.parent2 == "" || c.parent2 in store
    ensures r.None? <==> c.parent2 == ""
    ensures r.Some? ==> c.parent2 in Parents(c) && store[c.parent2] == r.value
  {
    if c.parent2 == "" then None else Some(store[c.parent2])
  }

  /** Building a commit from stored parents and dereferencing its parent ids
      gives the parents back. */
  lemma ParentsRoundTrip(h: Hasher, store: map<CommitId, Commit>, message: string, timestamp: int,
                         files: map<string, BlobId>, p1: Option<Commit>, p2: Option<Commit>)
    requires CommitIdsValid(h) && ContentAddressed(h, store)
    requires p1.Some? ==> h.commitId(p1.value) in store
    requires p2.Some? ==> h.commitId(p2.value) in store
    ensures GetParent1(store, NewCommit(h, message, timestamp, files, p1, p2)) == p1
    ensures GetParent2(store, NewCommit(h, message, timestamp, files, p1, p2)) == p2
  {
    if p1.Some? {
      var id := h.commitId(p1.value);
      assert h.commitId(store[id]) == id;
    }
    if p2.Some? {
      var id := h.commitId(p2.value);
      assert h.commitId(store[id]) == id;
    }
  }

  // ---------------------------------------------------------------------
  // Equality. The source's hashCode is String.hashCode of the commit id and
  // equals compares those hash codes.

  const TwoTo32: nat := 0x1_0000_0000

  /** Java's String.hashCode: h = 31 * h + c over the characters, in 32-bit
      arithmetic (compared here as an unsigned residue). */
  function JavaStringHash(s: string): (r: nat)
    ensures r < TwoTo32
  {
    if |s| == 0 then 0 else (31 * JavaStringHash(s[..|s| - 1]) + s[|s| - 1] as int) % TwoTo32
  }

  /** Commit.hashCode. */
  function CommitHashCode(h: Hasher, c: Commit): int {
    JavaStringHash(h.commitId(c))
  }

  /** Commit.equals as written: two commits are equal when their 32-bit hash
      codes are. (The `this == other` shortcut gives the same answer.) */
  predicate CommitEqualsAsWritten(h: Hasher, a: Commit, b: Commit) {
    CommitHashCode(h, a) == CommitHashCode(h, b)
  }

  /** Commit equality as intended: equal content hashes. The rest of the
      model compares commits this way, by id. */
  predicate SameCommit(h: Hasher, a: Commit, b: Commit) {
    h.commitId(a) == h.commitId(b)
  }

  /** With a collision-free hash, comparing ids is comparing content, it is
      an equivalence, and it agrees with hashCode. */
  lemma SameCommitIsContentEquality(h: Hasher, a: Commit, b: Commit, c: Commit)
    requires CommitIdsValid(h)
    ensures SameCommit(h, a, b) <==> a == b
    ensures SameCommit(h, a, a)
    ensures SameCommit(h, a, b) ==> SameCommit(h, b, a)
    ensures SameCommit(h, a, b) && SameCommit(h, b, c) ==> SameCommit(h, a, c)
    ensures SameCommit(h, a, b) ==> CommitHashCode(h, a) == CommitHashCode(h, b)
    ensures SameCommit(h, a, b) ==> CommitEqualsAsWritten(h, a, b)
  {
  }

  /** The hash of a string depends on its prefix only through the prefix's hash. */
  lemma {:induction false} HashOfExtension(x: string, y: string, q: string)
    requires JavaStringHash(x) == JavaStringHash(y)
    ensures JavaStringHash(x + q) == JavaStringHash(y + q)
    decreases |q|
  {
    if |q| == 0 {
      assert x + q == x && y + q == y;
    } else {
      var q' := q[..|q| - 1];
      HashOfExtension(x, y, q');
      assert (x + q)[..|x + q| - 1] == x + q';
      assert (y + q)[..|y + q| - 1] == y + q';
    }
  }

  /** Two 40-digit ids that differ but share String.hashCode. */
  const CollidingIdA: CommitId := "933e73fb" + "00000000000000000000000000000000"
  const CollidingIdB: CommitId := "b8f65f7d" + "00000000000000000000000000000000"

  /** String.hashCode of "93", character by character. */
  lemma HashOfPrefixA1()
    ensures JavaStringHash("93") == 1818
  {
    assert JavaStringHash("9") == 57 by { assert "9"[..0] == ""; }
    assert "93"[..1] == "9";
  }

  /** String.hashCode of "933e", continuing from "93". */
  lemma HashOfPrefixA2()
    ensures JavaStringHash("933e") == 1748780
  {
    HashOfPrefixA1();
    assert JavaStringHash("933") == 56409 by { assert "933"[..2] == "93"; }
    assert "933e"[..3] == "933";
  }

  /** String.hashCode of "933e73", continuing from "933e". */
  lemma HashOfPrefixA3()
    ensures JavaStringHash("933e73") == 1680579336
  {
    HashOfPrefixA2();
    assert JavaStringHash("933e7") == 54212235 by { assert "933e7"[..4] == "933e"; }
    assert "933e73"[..5] == "933e7";
  }

  /** String.hashCode of "933e73fb", continuing from "933e73". */
  lemma HashOfPrefixA()
    ensures JavaStringHash("933e73fb") == 129041860
  {
    HashOfPrefixA3();
    assert JavaStringHash("933e73f") == 558351966 by { assert "933e73f"[..6] == "933e73"; }
    assert "933e73fb"[..7] == "933e73f";
  }

  /** String.hashCode of "b8", character by character. */
  lemma HashOfPrefixB1()
    ensures JavaStringHash("b8") == 3094
  {
    assert JavaStringHash("b") == 98 by { assert "b"[..0] == ""; }
    assert "b8"[..1] == "b";
  }

  /** String.hashCode of "b8f6", continuing from "b8". */
  lemma HashOfPrefixB2()
    ensures JavaStringHash("b8f6") == 2976550
  {
    HashOfPrefixB1();
    assert JavaStringHash("b8f") == 96016 by { assert "b8f"[..2] == "b8"; }
    assert "b8f6"[..3] == "b8f";
  }

  /** String.hashCode of "b8f65f", continuing from "b8f6". */
  lemma HashOfPrefixB3()
    ensures JavaStringHash("b8f65f") == 2860466295
  {
    HashOfPrefixB2();
    assert JavaStringHash("b8f65") == 92273103 by { assert "b8f65"[..4] == "b8f6"; }
    assert "b8f65f"[..5] == "b8f65";
  }

  /** String.hashCode of "b8f65f7d", continuing from "b8f65f". */
  lemma HashOfPrefixB()
    ensures JavaStringHash("b8f65f7d") == 129041860
  {
    HashOfPrefixB3();
    assert JavaStringHash("b8f65f7") == 2775109280 by { assert "b8f65f7"[..6] == "b8f65f"; }
    assert "b8f65f7d"[..7] == "b8f65f7";
  }

  /** Commit.equals as written calls two different commits equal when their
      ids' String.hashCode values collide, as these two ids do. */
  lemma EqualsAsWrittenConfusesDistinctCommits(h: Hasher, a: Commit, b: Commit)
    requires h.commitId(a) == CollidingIdA && h.commitId(b) == CollidingIdB
    ensures a != b && !SameCommit(h, a, b)
    ensures CommitEqualsAsWritten(h, a, b)
  {
    HashOfPrefixA();
    HashOfPrefixB();
    HashOfExtension("933e73fb", "b8f65f7d", "00000000000000000000000000000000");
    assert CollidingIdA[0] != CollidingIdB[0];
  }

  // ---------------------------------------------------------------------
  // Log header (Commit.toString), with the date already formatted.

  /** The lines of a log entry before the optional `Merge:` line. */
  function LogHead(h: Hasher, c: Commit): string {
    "===\n" + "commit " + h.commitId(c) + "\n"
  }

  /** Commit.toString: the `Merge:` line shows the first seven characters of
      both parent ids and appears only for a commit with a second parent. */
  function LogEntry(h: Hasher, c: Commit, formattedDate: string): string
    requires c.parent2 != "" ==> |c.parent1| >= 7 && |c.parent2| >= 7
  {
    LogHead(h, c)
      + (if c.parent2 != "" then "Merge: " + c.parent1[..7] + " " + c.parent2[..7] + "\n" else "")
      + "Date: " + formattedDate + "\n" + c.message + "\n"
  }

  /** A log entry carries a `Merge:` line exactly when the commit has a second
      parent, and that line names the two parents' seven-character prefixes. */
  lemma MergeLineIffSecondParent(h: Hasher, c: Commit, formattedDate: string)
    requires c.parent2 != "" ==> |c.parent1| >= 7 && |c.parent2| >= 7
    ensures c.parent2 != "" <==> LogHead(h, c) + "Merge: " <= LogEntry(h, c, formattedDate)
    ensures c.parent2 != "" ==>
      LogHead(h, c) + "Merge: " + c.parent1[..7] + " " + c.parent2[..7] + "\n" <= LogEntry(h, c, formattedDate)
  {
    var head := LogHead(h, c);
    var e := LogEntry(h, c, formattedDate);
    if c.parent2 == "" {
      assert e == head + ("Date: " + formattedDate + "\n" + c.message + "\n");
      assert e[|head|] == 'D';
      assert (head + "Merge: ")[|head|] == 'M';
    } else {
      var line := "Merge: " + c.parent1[..7] + " " + c.parent2[..7] + "\n";
      var rest := "Date: " + formattedDate + "\n" + c.message + "\n";
      assert e == head + line + rest;
      assert head + line <= e;
      assert head + "Merge: " <= head + line;
    }
  }
}
