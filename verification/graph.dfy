/** The commit graph of gitlet/Repository.java: ancestry over parent ids,
    the breadth-first search `bfsSearchHistoryFrom`, the split point of two
    heads, the fast-forward test of push, and the first-parent walk of log. */
module Graph {
  import opened Wrappers
  import opened Objects

  /** The commits directory: commits filed by id. */
  type Store = map<CommitId, Commit>

  /** Every parent id a stored commit names is itself stored, so dereferencing
      a parent never fails. */
  ghost predicate Closed(store: Store) {
    forall id :: id in store ==> Parents(store[id]) <= store.Keys
  }

  /** `p` walks from `p[0]` to `p[|p| - 1]` through stored commits, each step
      going from a commit to one of its parents. */
  ghost predicate IsChain(store: Store, p: seq<CommitId>) {
    && |p| > 0
    && (forall i :: 0 <= i < |p| ==> p[i] in store)
    && (forall i :: 0 < i < |p| ==> p[i] in Parents(store[p[i - 1]]))
  }

  /** `a` is `x` itself or an ancestor of `x`. */
  ghost predicate IsAncestor(store: Store, a: CommitId, x: CommitId) {
    exists p :: IsChain(store, p) && p[0] == x && p[|p| - 1] == a
  }

  /** Everything reachable from `x`, `x` included. */
  ghost function AncestorSet(store: Store, x: CommitId): set<CommitId> {
    set a | a in store.Keys && IsAncestor(store, a, x)
  }

  lemma AncestorOfSelf(store: Store, x: CommitId)
    requires x in store
    ensures IsAncestor(store, x, x)
  {
    assert IsChain(store, [x]);
  }

  /** A stored parent of an ancestor is an ancestor. */
  lemma AncestorOfParent(store: Store, start: CommitId, x: CommitId, p: CommitId)
    requires IsAncestor(store, x, start) && x in store
    requires p in Parents(store[x]) && p in store
    ensures IsAncestor(store, p, start)
  {
    var c :| IsChain(store, c) && c[0] == start && c[|c| - 1] == x;
    var c' := c + [p];
    assert forall i :: 0 <= i < |c| ==> c'[i] == c[i];
    assert IsChain(store, c');
  }

  lemma {:induction false} AncestorTransitive(store: Store, a: CommitId, b: CommitId, x: CommitId)
    requires IsAncestor(store, a, b) && IsAncestor(store, b, x)
    ensures IsAncestor(store, a, x)
  {
    var p :| IsChain(store, p) && p[0] == x && p[|p| - 1] == b;
    var q :| IsChain(store, q) && q[0] == b && q[|q| - 1] == a;
    var r := p + q[1..];
    assert forall i :: 0 <= i < |p| ==> r[i] == p[i];
    assert forall i :: |p| <= i < |r| ==> r[i] == q[i - |p| + 1];
    assert IsChain(store, r);
  }

  /** A set that contains `x` and the parents of each of its commits contains
      every ancestor of `x`. */
  lemma AncestorsInClosedSet(store: Store, s: set<CommitId>, x: CommitId, a: CommitId)
    requires forall y :: y in s && y in store ==> Parents(store[y]) <= s
    requires x in s && IsAncestor(store, a, x)
    ensures a in s
  {
    var c :| IsChain(store, c) && c[0] == x && c[|c| - 1] == a;
    var i := 0;
    while i < |c| - 1
      invariant 0 <= i < |c| && c[i] in s
    {
      i := i + 1;
    }
  }

  // ---------------------------------------------------------------------
  // Breadth-first search (bfsSearchHistoryFrom)

  /** Outcome of one search: the commit found in the destination set, if any;
      the visited set (everything ever enqueued); and the commits polled, in
      polling order. */
  datatype Search = Search(found: Option<CommitId>, visited: set<CommitId>, order: seq<CommitId>)

  ghost predicate NoDup(s: seq<CommitId>) {
    forall i, j :: 0 <= i < j < |s| ==> s[i] != s[j]
  }

  function Elems(s: seq<CommitId>): set<CommitId> {
    set x | x in s
  }

  /** Every stored commit of `s` has its parents in `s`. */
  ghost predicate ParentClosed(store: Store, s: set<CommitId>) {
    forall y :: y in s && y in store ==> Parents(store[y]) <= s
  }

  /** The first element of `s` that lies in `d`. */
  function FirstIn(s: seq<CommitId>, d: set<CommitId>): (r: Option<CommitId>)
    ensures r.None? <==> forall i :: 0 <= i < |s| ==> s[i] !in d
    ensures r.Some? ==> exists k :: 0 <= k < |s| && s[k] == r.value && r.value in d
                                    && forall i :: 0 <= i < k ==> s[i] !in d
  {
    if |s| == 0 then None
    else if s[0] in d then Some(s[0])
    else
      var r := FirstIn(s[1..], d);
      assert forall i :: 0 < i < |s| ==> s[i] == s[1..][i - 1];
      if r.Some? then
        var k :| 0 <= k < |s[1..]| && s[1..][k] == r.value && r.value in d
                 && forall i :: 0 <= i < k ==> s[1..][i] !in d;
        assert s[k + 1] == r.value;
        r
      else r
  }

  /** The search state: `disc` lists every commit enqueued so far, in
      enqueueing order; the queue is `disc[next..]` and the polled commits are
      `disc[..next]` (a FIFO queue polls in enqueueing order). The parents of
      every polled commit have been enqueued, and no polled commit lies in the
      destination set. */
  ghost predicate BfsInvariant(store: Store, start: CommitId, disc: seq<CommitId>, next: nat,
                               dest: Option<set<CommitId>>) {
    && Closed(store)
    && 0 < |disc| && next <= |disc| && disc[0] == start
    && NoDup(disc)
    && (forall i :: 0 <= i < |disc| ==> disc[i] in store)
    && (forall i :: 0 <= i < next ==> Parents(store[disc[i]]) <= Elems(disc))
    && (dest.Some? ==> forall i :: 0 <= i < next ==> disc[i] !in dest.value)
  }

  /** What the loop delivers, ancestry aside. */
  ghost predicate SearchShape(store: Store, start: CommitId, dest: Option<set<CommitId>>, s: Search) {
    OrderShape(start, [], s) && FoundFirst(dest, s) && NotFoundExhaustive(store, dest, s)
  }

  /** The loop of bfsSearchHistoryFrom, from the state `disc`/`next`: poll
      the head of the queue, stop if it is in `dest`, otherwise enqueue its
      first and then its second parent when not yet visited. */
  function BfsLoop(store: Store, start: CommitId, disc: seq<CommitId>, next: nat,
                   dest: Option<set<CommitId>>): Search
    requires BfsInvariant(store, start, disc, next, dest)
    decreases |store.Keys - Elems(disc)|, |disc| - next
  {
    if next == |disc| then Search(None, Elems(disc), disc)
    else
      var cur := disc[next];
      if dest.Some? && cur in dest.value then Search(Some(cur), Elems(disc), disc[..next + 1])
      else
        BfsStep(store, start, disc, next, dest);
        BfsLoop(store, start, Enqueue(store, disc, next), next + 1, dest)
  }

  /** The commits enqueued after polling `disc[next]`: its first parent, then
      its second parent, each only if it exists and was not visited before. */
  function Enqueue(store: Store, disc: seq<CommitId>, next: nat): seq<CommitId>
    requires next < |disc| && disc[next] in store
  {
    var c := store[disc[next]];
    EnqueueIfNew(EnqueueIfNew(disc, c.parent1), c.parent2)
  }

  /** `disc` with `p` appended, when `p` names a commit not yet enqueued. */
  function EnqueueIfNew(disc: seq<CommitId>, p: CommitId): seq<CommitId> {
    if p != "" && p !in disc then disc + [p] else disc
  }

  /** The polling order starts at `start`, repeats nothing, extends the
      commits polled so far and lists only visited commits. */
  ghost predicate OrderShape(start: CommitId, polled: seq<CommitId>, s: Search) {
    && |s.order| > 0 && s.order[0] == start && NoDup(s.order)
    && Elems(s.order) <= s.visited
    && polled <= s.order
  }

  /** A found commit is the last one polled, lies in `dest`, and no commit
      polled before it does. */
  ghost predicate FoundFirst(dest: Option<set<CommitId>>, s: Search) {
    s.found.Some? ==>
      && dest.Some?
      && |s.order| > 0
      && s.found.value == s.order[|s.order| - 1]
      && s.found.value in dest.value
      && forall i :: 0 <= i < |s.order| - 1 ==> s.order[i] !in dest.value
  }

  /** When nothing is found every visited commit was polled, and the visited
      set is closed under parents and avoids `dest`. */
  ghost predicate NotFoundExhaustive(store: Store, dest: Option<set<CommitId>>, s: Search) {
    s.found.None? ==>
      && Elems(s.order) == s.visited
      && ParentClosed(store, s.visited)
      && (dest.Some? ==> s.visited !! dest.value)
  }

  /** The three facts of the loop, one induction each; a stopping state
      establishes them directly and an iteration carries them back. */
  lemma {:induction false} BfsLoopOrder(store: Store, start: CommitId, disc: seq<CommitId>, next: nat,
                                        dest: Option<set<CommitId>>)
    requires BfsInvariant(store, start, disc, next, dest)
    ensures OrderShape(start, disc[..next], BfsLoop(store, start, disc, next, dest))
    decreases |store.Keys - Elems(disc)|, |disc| - next
  {
    if next == |disc| || (dest.Some? && disc[next] in dest.value) {
      BfsStops(store, start, disc, next, dest);
    } else {
      BfsStep(store, start, disc, next, dest);
      BfsLoopOrder(store, start, Enqueue(store, disc, next), next + 1, dest);
      OrderStep(store, start, disc, next, dest);
    }
  }

  lemma {:induction false} BfsLoopFound(store: Store, start: CommitId, disc: seq<CommitId>, next: nat,
                                        dest: Option<set<CommitId>>)
    requires BfsInvariant(store, start, disc, next, dest)
    ensures FoundFirst(dest, BfsLoop(store, start, disc, next, dest))
    decreases |store.Keys - Elems(disc)|, |disc| - next
  {
    if next == |disc| || (dest.Some? && disc[next] in dest.value) {
      BfsStops(store, start, disc, next, dest);
    } else {
      BfsStep(store, start, disc, next, dest);
      BfsLoopFound(store, start, Enqueue(store, disc, next), next + 1, dest);
      BfsLoopUnfold(store, start, disc, next, dest);
    }
  }

  lemma {:induction false} BfsLoopExhaustive(store: Store, start: CommitId, disc: seq<CommitId>, next: nat,
                                             dest: Option<set<CommitId>>)
    requires BfsInvariant(store, start, disc, next, dest)
    ensures NotFoundExhaustive(store, dest, BfsLoop(store, start, disc, next, dest))
    decreases |store.Keys - Elems(disc)|, |disc| - next
  {
    if next == |disc| || (dest.Some? && disc[next] in dest.value) {
      BfsStops(store, start, disc, next, dest);
    } else {
      BfsStep(store, start, disc, next, dest);
      BfsLoopExhaustive(store, start, Enqueue(store, disc, next), next + 1, dest);
      BfsLoopUnfold(store, start, disc, next, dest);
    }
  }

  /** A state where the loop stops: the queue is empty, or its head is in
      `dest`. */
  lemma BfsStops(store: Store, start: CommitId, disc: seq<CommitId>, next: nat, dest: Option<set<CommitId>>)
    requires BfsInvariant(store, start, disc, next, dest)
    requires next == |disc| || (dest.Some? && disc[next] in dest.value)
    ensures OrderShape(start, disc[..next], BfsLoop(store, start, disc, next, dest))
    ensures FoundFirst(dest, BfsLoop(store, start, disc, next, dest))
    ensures NotFoundExhaustive(store, dest, BfsLoop(store, start, disc, next, dest))
  {
    if next == |disc| {
      BfsExhausted(store, start, disc, dest);
      assert BfsLoop(store, start, disc, next, dest) == Search(None, Elems(disc), disc);
    } else {
      assert forall i :: 0 <= i < next ==> disc[i] !in dest.value;
      BfsFound(store, start, disc, next, dest);
      assert BfsLoop(store, start, disc, next, dest) == Search(Some(disc[next]), Elems(disc), disc[..next + 1]);
    }
  }

  /** The order fact of the next state gives that of this one. */
  lemma OrderStep(store: Store, start: CommitId, disc: seq<CommitId>, next: nat, dest: Option<set<CommitId>>)
    requires BfsInvariant(store, start, disc, next, dest) && next < |disc|
    requires dest.Some? ==> disc[next] !in dest.value
    requires BfsInvariant(store, start, Enqueue(store, disc, next), next + 1, dest)
    requires OrderShape(start, Enqueue(store, disc, next)[..next + 1],
                        BfsLoop(store, start, Enqueue(store, disc, next), next + 1, dest))
    ensures OrderShape(start, disc[..next], BfsLoop(store, start, disc, next, dest))
  {
    BfsStep(store, start, disc, next, dest);
    BfsLoopUnfold(store, start, disc, next, dest);
    var d := Enqueue(store, disc, next);
    PrefixCarriesBack(disc, next, d, BfsLoop(store, start, d, next + 1, dest).order);
  }

  /** The loop delivers SearchShape, and its polling order extends the
      commits already polled. */
  lemma BfsLoopCorrect(store: Store, start: CommitId, disc: seq<CommitId>, next: nat,
                       dest: Option<set<CommitId>>)
    requires BfsInvariant(store, start, disc, next, dest)
    ensures SearchShape(store, start, dest, BfsLoop(store, start, disc, next, dest))
    ensures disc[..next] <= BfsLoop(store, start, disc, next, dest).order
  {
    BfsLoopOrder(store, start, disc, next, dest);
    BfsLoopFound(store, start, disc, next, dest);
    BfsLoopExhaustive(store, start, disc, next, dest);
  }

  lemma PrefixCarriesBack(disc: seq<CommitId>, next: nat, d: seq<CommitId>, order: seq<CommitId>)
    requires next < |disc| && disc <= d && d[..next + 1] <= order
    ensures disc[..next] <= order
  {
    assert forall i :: 0 <= i < next ==> disc[i] == d[i] == order[i];
  }

  /** Stopping at a polled commit in the destination set. */
  lemma BfsFound(store: Store, start: CommitId, disc: seq<CommitId>, next: nat, dest: Option<set<CommitId>>)
    requires next < |disc| && disc[0] == start && NoDup(disc)
    requires dest.Some? && disc[next] in dest.value
    requires forall i :: 0 <= i < next ==> disc[i] !in dest.value
    ensures SearchShape(store, start, dest, Search(Some(disc[next]), Elems(disc), disc[..next + 1]))
    ensures disc[..next] <= disc[..next + 1]
  {
    TakeFacts(disc, next + 1);
  }

  /** A non-empty prefix keeps the first and last elements it takes, has no
      duplicates when the whole has none, and holds only elements of the whole. */
  lemma TakeFacts(s: seq<CommitId>, k: nat)
    requires 0 < k <= |s|
    ensures |s[..k]| == k && s[..k][0] == s[0] && s[..k][k - 1] == s[k - 1]
    ensures NoDup(s) ==> NoDup(s[..k])
    ensures Elems(s[..k]) <= Elems(s)
    ensures s[..k - 1] <= s[..k]
  {
    forall x | x in Elems(s[..k])
      ensures x in Elems(s)
    {
      var i :| 0 <= i < k && s[..k][i] == x;
    }
  }

  /** When the queue is empty the visited commits are closed under parents. */
  lemma BfsExhausted(store: Store, start: CommitId, disc: seq<CommitId>, dest: Option<set<CommitId>>)
    requires BfsInvariant(store, start, disc, |disc|, dest)
    ensures SearchShape(store, start, dest, Search(None, Elems(disc), disc))
    ensures disc[..|disc|] <= disc
  {
    forall y | y in Elems(disc) && y in store
      ensures Parents(store[y]) <= Elems(disc)
    {
      var i :| 0 <= i < |disc| && disc[i] == y;
    }
  }

  /** Enqueueing a parent of the commit being polled, unless it was already
      visited, keeps the invariant. */
  lemma EnqueueKeepsInvariant(store: Store, start: CommitId, disc: seq<CommitId>, next: nat,
                              dest: Option<set<CommitId>>, p: CommitId)
    requires BfsInvariant(store, start, disc, next, dest) && next < |disc|
    requires p == "" || p in Parents(store[disc[next]])
    ensures BfsInvariant(store, start, EnqueueIfNew(disc, p), next, dest)
    ensures disc <= EnqueueIfNew(disc, p)
    ensures p != "" ==> p in EnqueueIfNew(disc, p)
  {
    var d := EnqueueIfNew(disc, p);
    if d != disc {
      assert forall i :: 0 <= i < |disc| ==> d[i] == disc[i];
      assert d[|disc|] == p && p !in disc;
      assert Elems(d) == Elems(disc) + {p};
      assert p in store;
      assert NoDup(d);
    }
  }

  /** Visiting a commit that was not visited before brings the search closer
      to exhausting the store. */
  lemma VisitShrinksMeasure(store: Store, disc: seq<CommitId>, d: seq<CommitId>)
    requires disc <= d && |disc| < |d| && d[|disc|] !in disc && Elems(d) <= store.Keys
    ensures |store.Keys - Elems(d)| < |store.Keys - Elems(disc)|
  {
    var p := d[|disc|];
    assert p in Elems(d) && p !in Elems(disc);
    assert Elems(disc) <= Elems(d);
    var smaller, larger := store.Keys - Elems(d), store.Keys - Elems(disc);
    assert p in larger;
    assert smaller <= larger - {p};
    assert |larger - {p}| == |larger| - 1;
    SubsetCardinality(smaller, larger - {p});
  }

  lemma SubsetCardinality(a: set<CommitId>, b: set<CommitId>)
    requires a <= b
    ensures |a| <= |b|
    decreases |b|
  {
    if a != {} {
      var x :| x in a;
      SubsetCardinality(a - {x}, b - {x});
    }
  }

  /** One iteration keeps the invariant and shrinks the measure. */
  lemma BfsStep(store: Store, start: CommitId, disc: seq<CommitId>, next: nat, dest: Option<set<CommitId>>)
    requires BfsInvariant(store, start, disc, next, dest) && next < |disc|
    requires dest.Some? ==> disc[next] !in dest.value
    ensures BfsInvariant(store, start, Enqueue(store, disc, next), next + 1, dest)
    ensures disc <= Enqueue(store, disc, next)
    ensures |store.Keys - Elems(Enqueue(store, disc, next))| < |store.Keys - Elems(disc)|
            || (Enqueue(store, disc, next) == disc && |disc| - (next + 1) < |disc| - next)
  {
    var cur := disc[next];
    var c := store[cur];
    var d1 := EnqueueIfNew(disc, c.parent1);
    var d2 := EnqueueIfNew(d1, c.parent2);
    EnqueueKeepsInvariant(store, start, disc, next, dest, c.parent1);
    assert d1[next] == cur;
    EnqueueKeepsInvariant(store, start, d1, next, dest, c.parent2);
    assert Parents(c) <= Elems(d2);
    assert d2[next] == cur;
    if d2 != disc {
      assert d2[|disc|] !in disc;
      VisitShrinksMeasure(store, disc, d2);
    }
  }

  /** Everything the loop visits is an ancestor of the start, given that
      everything enqueued so far is. */
  lemma {:induction false} BfsLoopWithinHistory(store: Store, start: CommitId, disc: seq<CommitId>, next: nat,
                                                dest: Option<set<CommitId>>)
    requires BfsInvariant(store, start, disc, next, dest)
    requires Elems(disc) <= AncestorSet(store, start)
    ensures BfsLoop(store, start, disc, next, dest).visited <= AncestorSet(store, start)
    decreases |store.Keys - Elems(disc)|, |disc| - next
  {
    if next < |disc| && !(dest.Some? && disc[next] in dest.value) {
      var d := Enqueue(store, disc, next);
      BfsStep(store, start, disc, next, dest);
      BfsLoopUnfold(store, start, disc, next, dest);
      EnqueueWithinHistory(store, start, disc, next);
      BfsLoopWithinHistory(store, start, d, next + 1, dest);
    }
  }

  lemma EnqueueWithinHistory(store: Store, start: CommitId, disc: seq<CommitId>, next: nat)
    requires Closed(store) && next < |disc| && disc[next] in store
    requires Elems(disc) <= AncestorSet(store, start)
    ensures Elems(Enqueue(store, disc, next)) <= AncestorSet(store, start)
  {
    var cur := disc[next];
    var c := store[cur];
    assert cur in AncestorSet(store, start);
    forall p | p in Parents(c)
      ensures p in AncestorSet(store, start)
    {
      AncestorOfParent(store, start, cur, p);
    }
    assert Elems(Enqueue(store, disc, next)) <= Elems(disc) + Parents(c);
  }

  /** bfsSearchHistoryFrom(start, visited, dest): the start is polled first,
      each commit at most once, in breadth-first order; with a destination set the result is the
      first polled commit in it, and none means no ancestor lies in it,
      so it is the first commit in it of the search without a destination;
      without one the visited set is the whole history of `start`. */
  function BfsSearch(store: Store, start: CommitId, dest: Option<set<CommitId>>): (s: Search)
    requires Closed(store) && start in store
    ensures |s.order| > 0 && s.order[0] == start && NoDup(s.order)
    ensures BreadthFirst(store, s.order)
    ensures Elems(s.order) <= s.visited <= AncestorSet(store, start)
    ensures s.found.Some? ==>
      && dest.Some?
      && s.found.value == s.order[|s.order| - 1]
      && s.found.value in dest.value
      && forall i :: 0 <= i < |s.order| - 1 ==> s.order[i] !in dest.value
    ensures s.found.None? ==>
      && Elems(s.order) == s.visited == AncestorSet(store, start)
      && (dest.Some? ==> AncestorSet(store, start) !! dest.value)
    ensures dest.Some? ==> s.found == FirstIn(BfsLoop(store, start, [start], 0, None).order, dest.value)
  {
    var s := BfsLoop(store, start, [start], 0, dest);
    BfsSearchFacts(store, start, dest, s);
    assert FifoState(store, [start], 0);
    BfsLoopBreadthFirst(store, start, [start], 0, dest);
    if dest.Some? then
      BfsDestIsFirstOfFullOrder(store, start, [start], 0, dest.value);
      s
    else s
  }

  lemma BfsSearchFacts(store: Store, start: CommitId, dest: Option<set<CommitId>>, s: Search)
    requires Closed(store) && start in store
    requires BfsInvariant(store, start, [start], 0, dest)
    requires s == BfsLoop(store, start, [start], 0, dest)
    ensures SearchShape(store, start, dest, s)
    ensures s.visited <= AncestorSet(store, start)
    ensures s.found.None? ==> s.visited == AncestorSet(store, start)
  {
    AncestorOfSelf(store, start);
    assert Elems([start]) == {start};
    BfsLoopCorrect(store, start, [start], 0, dest);
    BfsLoopWithinHistory(store, start, [start], 0, dest);
    if s.found.None? {
      assert start in s.visited;
      forall a | a in AncestorSet(store, start)
        ensures a in s.visited
      {
        AncestorsInClosedSet(store, s.visited, start, a);
      }
    }
  }

  /** Searching towards a destination set polls the same commits as the full
      search up to the first one in the set: the result is the first commit
      of the full polling order that lies in `dest`. */
  lemma {:induction false} BfsDestIsFirstOfFullOrder(store: Store, start: CommitId, disc: seq<CommitId>,
                                                     next: nat, dest: set<CommitId>)
    requires BfsInvariant(store, start, disc, next, Some(dest))
    ensures BfsInvariant(store, start, disc, next, None)
    ensures BfsLoop(store, start, disc, next, Some(dest)).found
            == FirstIn(BfsLoop(store, start, disc, next, None).order, dest)
    decreases |store.Keys - Elems(disc)|, |disc| - next
  {
    BfsInvariantWithoutDest(store, start, disc, next, dest);
    if next == |disc| {
      DestExhausted(store, start, disc, dest);
    } else if disc[next] in dest {
      DestFoundFirst(store, start, disc, next, dest);
    } else {
      var d := Enqueue(store, disc, next);
      BfsStep(store, start, disc, next, None);
      BfsLoopUnfold(store, start, disc, next, Some(dest));
      BfsLoopUnfold(store, start, disc, next, None);
      BfsDestIsFirstOfFullOrder(store, start, d, next + 1, dest);
    }
  }

  lemma DestExhausted(store: Store, start: CommitId, disc: seq<CommitId>, dest: set<CommitId>)
    requires BfsInvariant(store, start, disc, |disc|, Some(dest)) && BfsInvariant(store, start, disc, |disc|, None)
    ensures BfsLoop(store, start, disc, |disc|, Some(dest)).found
            == FirstIn(BfsLoop(store, start, disc, |disc|, None).order, dest)
  {
    assert BfsLoop(store, start, disc, |disc|, None).order == disc;
  }

  lemma DestFoundFirst(store: Store, start: CommitId, disc: seq<CommitId>, next: nat, dest: set<CommitId>)
    requires BfsInvariant(store, start, disc, next, Some(dest)) && BfsInvariant(store, start, disc, next, None)
    requires next < |disc| && disc[next] in dest
    ensures BfsLoop(store, start, disc, next, Some(dest)).found
            == FirstIn(BfsLoop(store, start, disc, next, None).order, dest)
  {
    BfsStillPrefix(store, start, disc, next);
    FirstAtPosition(BfsLoop(store, start, disc, next, None).order, disc, next, dest);
  }

  /** One iteration of the loop that polls a commit outside `dest`. */
  lemma BfsLoopUnfold(store: Store, start: CommitId, disc: seq<CommitId>, next: nat, dest: Option<set<CommitId>>)
    requires BfsInvariant(store, start, disc, next, dest) && next < |disc|
    requires dest.Some? ==> disc[next] !in dest.value
    ensures BfsInvariant(store, start, Enqueue(store, disc, next), next + 1, dest)
    ensures BfsLoop(store, start, disc, next, dest) == BfsLoop(store, start, Enqueue(store, disc, next), next + 1, dest)
  {
    BfsStep(store, start, disc, next, dest);
  }

  /** The full search polls `disc[next]` at position `next` when the queue
      still holds it. */
  lemma BfsStillPrefix(store: Store, start: CommitId, disc: seq<CommitId>, next: nat)
    requires BfsInvariant(store, start, disc, next, None) && next < |disc|
    ensures disc[..next + 1] <= BfsLoop(store, start, disc, next, None).order
  {
    var d := Enqueue(store, disc, next);
    BfsStep(store, start, disc, next, None);
    BfsLoopUnfold(store, start, disc, next, None);
    BfsLoopOrder(store, start, d, next + 1, None);
    PrefixOfPrefix(disc, d, next + 1, BfsLoop(store, start, d, next + 1, None).order);
  }

  lemma PrefixOfPrefix(disc: seq<CommitId>, d: seq<CommitId>, k: nat, order: seq<CommitId>)
    requires k <= |disc| && disc <= d && d[..k] <= order
    ensures disc[..k] <= order
  {
    assert forall i :: 0 <= i < k ==> disc[i] == d[i] == order[i];
  }

  lemma BfsInvariantWithoutDest(store: Store, start: CommitId, disc: seq<CommitId>, next: nat, dest: set<CommitId>)
    requires BfsInvariant(store, start, disc, next, Some(dest))
    ensures BfsInvariant(store, start, disc, next, None)
  {
  }

  /** When no commit before position `next` lies in `dest` and `disc[next]`
      does, any order extending `disc[..next + 1]` first meets `dest` there. */
  lemma FirstAtPosition(full: seq<CommitId>, disc: seq<CommitId>, next: nat, dest: set<CommitId>)
    requires next < |disc| && disc[..next + 1] <= full && disc[next] in dest
    requires forall i :: 0 <= i < next ==> disc[i] !in dest
    ensures FirstIn(full, dest) == Some(disc[next])
  {
    assert full[next] == disc[next];
    assert forall i :: 0 <= i < next ==> full[i] == disc[i];
    var r := FirstIn(full, dest);
    var k :| 0 <= k < |full| && full[k] == r.value && r.value in dest
             && forall i :: 0 <= i < k ==> full[i] !in dest;
    assert k == next;
  }

  // ---------------------------------------------------------------------
  // Breadth-first order

  /** `a` is a stored commit naming `x` as a parent. */
  ghost predicate Names(store: Store, a: CommitId, x: CommitId) {
    a in store && x in Parents(store[a])
  }

  /** The position of the first commit of `o` naming `x` as a parent (`|o|`
      when none does): in a polling order, the commit whose polling put `x`
      in the queue. */
  ghost function FirstNaming(store: Store, o: seq<CommitId>, x: CommitId): (r: nat)
    ensures r <= |o|
    ensures r < |o| ==> Names(store, o[r], x)
    ensures forall m {:trigger Names(store, o[m], x)} :: 0 <= m < r ==> !Names(store, o[m], x)
  {
    if |o| == 0 then 0
    else if Names(store, o[0], x) then 0
    else
      var r := FirstNaming(store, o[1..], x);
      assert forall m :: 0 < m < |o| ==> o[m] == o[1..][m - 1];
      1 + r
  }

  /** `o` is a breadth-first order: every commit after the first was
      enqueued by an earlier one, and commits leave the queue in the order
      they entered it: those enqueued by an earlier commit first, and of two
      enqueued by the same commit, its first parent first. */
  ghost predicate BreadthFirst(store: Store, o: seq<CommitId>) {
    && (forall j {:trigger FirstNaming(store, o, o[j])} :: 0 < j < |o| ==> FirstNaming(store, o, o[j]) < j)
    && (forall j1, j2 {:trigger FirstNaming(store, o, o[j1]), FirstNaming(store, o, o[j2])} ::
          0 < j1 < j2 < |o| ==>
          || FirstNaming(store, o, o[j1]) < FirstNaming(store, o, o[j2])
          || (&& FirstNaming(store, o, o[j1]) == FirstNaming(store, o, o[j2])
              && o[j2] != store[o[FirstNaming(store, o, o[j2])]].parent1))
  }

  /** A sequence and its extension agree on the first commit naming `x`
      when either finds one within the shorter. */
  lemma FirstNamingExtends(store: Store, o: seq<CommitId>, d: seq<CommitId>, x: CommitId)
    requires o <= d && (FirstNaming(store, o, x) < |o| || FirstNaming(store, d, x) < |o|)
    ensures FirstNaming(store, d, x) == FirstNaming(store, o, x)
  {
    assert forall m :: 0 <= m < |o| ==> d[m] == o[m];
  }

  /** A prefix of a breadth-first order is one. */
  lemma BreadthFirstPrefix(store: Store, o: seq<CommitId>, k: nat)
    requires BreadthFirst(store, o) && k <= |o|
    ensures BreadthFirst(store, o[..k])
  {
    var p := o[..k];
    forall j | 0 < j < k
      ensures FirstNaming(store, p, p[j]) == FirstNaming(store, o, o[j]) < j
    {
      FirstNamingExtends(store, p, o, p[j]);
    }
  }

  /** The loop state in breadth-first order: `disc` is, and every commit in
      it after the start was enqueued by a polled one. */
  ghost predicate FifoState(store: Store, disc: seq<CommitId>, next: nat) {
    && BreadthFirst(store, disc)
    && forall j {:trigger FirstNaming(store, disc, disc[j])} ::
         0 < j < |disc| ==> FirstNaming(store, disc, disc[j]) < next
  }

  /** The commits one poll enqueues are first named by the polled commit; the
      first parent, when new, enters the queue before the second. */
  lemma EnqueuedDiscovered(store: Store, disc: seq<CommitId>, next: nat)
    requires next < |disc| && disc[next] in store
    requires forall m :: 0 <= m < next ==> disc[m] in store && Parents(store[disc[m]]) <= Elems(disc)
    ensures var d := Enqueue(store, disc, next);
      && disc <= d && |d| <= |disc| + 2
      && (forall j :: |disc| <= j < |d| ==> FirstNaming(store, d, d[j]) == next)
      && (|d| == |disc| + 2 ==> d[|disc| + 1] != store[disc[next]].parent1)
  {
    var c := store[disc[next]];
    var d1 := EnqueueIfNew(disc, c.parent1);
    var d := EnqueueIfNew(d1, c.parent2);
    assert forall i :: 0 <= i < |disc| ==> d[i] == disc[i];
    forall j | |disc| <= j < |d|
      ensures FirstNaming(store, d, d[j]) == next
    {
      assert d[j] !in Elems(disc) && d[j] in Parents(c);
      assert Names(store, d[next], d[j]);
      forall m | 0 <= m < next
        ensures !Names(store, d[m], d[j])
      {
        assert Parents(store[disc[m]]) <= Elems(disc);
      }
    }
  }

  /** One iteration keeps the loop state in breadth-first order. */
  lemma FifoStep(store: Store, disc: seq<CommitId>, next: nat)
    requires next < |disc| && disc[next] in store
    requires forall m :: 0 <= m < next ==> disc[m] in store && Parents(store[disc[m]]) <= Elems(disc)
    requires FifoState(store, disc, next)
    ensures FifoState(store, Enqueue(store, disc, next), next + 1)
  {
    var d := Enqueue(store, disc, next);
    forall j | 0 < j < |d|
      ensures FirstNaming(store, d, d[j]) < j && FirstNaming(store, d, d[j]) <= next
    {
      FifoPosition(store, disc, next, j);
    }
    forall j1, j2 | 0 < j1 < j2 < |d|
      ensures || FirstNaming(store, d, d[j1]) < FirstNaming(store, d, d[j2])
              || (&& FirstNaming(store, d, d[j1]) == FirstNaming(store, d, d[j2])
                  && d[j2] != store[d[FirstNaming(store, d, d[j2])]].parent1)
    {
      FifoPair(store, disc, next, j1, j2);
    }
  }

  /** Where the commit at position `j` after one iteration was first named:
      by a polled commit when it was queued before, by the polled one when
      it was just enqueued. */
  lemma FifoPosition(store: Store, disc: seq<CommitId>, next: nat, j: nat)
    requires next < |disc| && disc[next] in store
    requires forall m :: 0 <= m < next ==> disc[m] in store && Parents(store[disc[m]]) <= Elems(disc)
    requires FifoState(store, disc, next)
    requires 0 < j < |Enqueue(store, disc, next)|
    ensures var d := Enqueue(store, disc, next);
      && (j < |disc| ==> d[j] == disc[j] && FirstNaming(store, d, d[j]) == FirstNaming(store, disc, disc[j]) < next)
      && (|disc| <= j ==> FirstNaming(store, d, d[j]) == next)
      && FirstNaming(store, d, d[j]) < j
  {
    var d := Enqueue(store, disc, next);
    EnqueuedDiscovered(store, disc, next);
    if j < |disc| {
      assert d[j] == disc[j];
      assert FirstNaming(store, disc, disc[j]) < next;
      FirstNamingExtends(store, disc, d, disc[j]);
    }
  }

  /** Two positions after one iteration keep the breadth-first order. */
  lemma FifoPair(store: Store, disc: seq<CommitId>, next: nat, j1: nat, j2: nat)
    requires next < |disc| && disc[next] in store
    requires forall m :: 0 <= m < next ==> disc[m] in store && Parents(store[disc[m]]) <= Elems(disc)
    requires FifoState(store, disc, next)
    requires 0 < j1 < j2 < |Enqueue(store, disc, next)|
    ensures var d := Enqueue(store, disc, next);
      && FirstNaming(store, d, d[j2]) < j2
      && (|| FirstNaming(store, d, d[j1]) < FirstNaming(store, d, d[j2])
          || (&& FirstNaming(store, d, d[j1]) == FirstNaming(store, d, d[j2])
              && d[j2] != store[d[FirstNaming(store, d, d[j2])]].parent1))
  {
    var d := Enqueue(store, disc, next);
    EnqueuedDiscovered(store, disc, next);
    FifoPosition(store, disc, next, j1);
    FifoPosition(store, disc, next, j2);
    if j2 < |disc| {
      assert FirstNaming(store, disc, disc[j1]) <= FirstNaming(store, disc, disc[j2]);
    } else if |disc| <= j1 {
      assert j1 == |disc| && j2 == |disc| + 1;
    }
  }

  /** The loop polls in breadth-first order. */
  lemma {:induction false} BfsLoopBreadthFirst(store: Store, start: CommitId, disc: seq<CommitId>, next: nat,
                                               dest: Option<set<CommitId>>)
    requires BfsInvariant(store, start, disc, next, dest) && FifoState(store, disc, next)
    ensures BreadthFirst(store, BfsLoop(store, start, disc, next, dest).order)
    decreases |store.Keys - Elems(disc)|, |disc| - next
  {
    if next == |disc| || (dest.Some? && disc[next] in dest.value) {
      BfsStopsBreadthFirst(store, start, disc, next, dest);
    } else {
      BfsStep(store, start, disc, next, dest);
      BfsLoopUnfold(store, start, disc, next, dest);
      FifoStep(store, disc, next);
      BfsLoopBreadthFirst(store, start, Enqueue(store, disc, next), next + 1, dest);
    }
  }

  /** A stopping state delivers `disc` or its prefix up to the polled commit. */
  lemma BfsStopsBreadthFirst(store: Store, start: CommitId, disc: seq<CommitId>, next: nat,
                             dest: Option<set<CommitId>>)
    requires BfsInvariant(store, start, disc, next, dest) && BreadthFirst(store, disc)
    requires next == |disc| || (dest.Some? && disc[next] in dest.value)
    ensures BreadthFirst(store, BfsLoop(store, start, disc, next, dest).order)
  {
    if next == |disc| {
      BreadthFirstPrefix(store, disc, |disc|);
      assert BfsLoop(store, start, disc, next, dest).order == disc[..|disc|];
    } else {
      BreadthFirstPrefix(store, disc, next + 1);
    }
  }

  /** A merge commit "m" with first parent "b" and second parent "c", where
      "b" has first parent "d": polling "m", "b", "c", "d" is breadth-first,
      while the depth-first "m", "b", "d", "c" is not. */
  lemma BreadthFirstExample()
    ensures var store := map["m" := Commit("merge", 3, map[], "b", "c"), "b" := Commit("b", 2, map[], "d", ""),
                             "c" := Commit("c", 1, map[], "", ""), "d" := Commit("d", 0, map[], "", "")];
      && BreadthFirst(store, ["m", "b", "c", "d"])
      && !BreadthFirst(store, ["m", "b", "d", "c"])
  {
    var store := map["m" := Commit("merge", 3, map[], "b", "c"), "b" := Commit("b", 2, map[], "d", ""),
                     "c" := Commit("c", 1, map[], "", ""), "d" := Commit("d", 0, map[], "", "")];
    var bfs: seq<CommitId> := ["m", "b", "c", "d"];
    var dfs: seq<CommitId> := ["m", "b", "d", "c"];
    assert FirstNaming(store, bfs, "b") == 0 && FirstNaming(store, bfs, "c") == 0;
    assert FirstNaming(store, bfs, "d") == 1;
    assert FirstNaming(store, dfs, "d") == 1 && FirstNaming(store, dfs, "c") == 0;
    assert dfs[2] == "d" && dfs[3] == "c";
  }

  /** The depth of `o[j]` in the search tree: how many enqueueing steps lead
      from the start to it. */
  ghost function Depth(store: Store, o: seq<CommitId>, j: nat): nat
    requires j < |o|
    decreases j
  {
    var i := FirstNaming(store, o, o[j]);
    if j == 0 || i >= j then 0 else Depth(store, o, i) + 1
  }

  /** In a breadth-first order depth never decreases: every commit at one
      depth is polled before any deeper one. */
  lemma {:induction false} DepthMonotone(store: Store, o: seq<CommitId>, j1: nat, j2: nat)
    requires BreadthFirst(store, o) && j1 <= j2 < |o|
    ensures Depth(store, o, j1) <= Depth(store, o, j2)
    decreases j2
  {
    if 0 < j1 < j2 {
      var i1, i2 := FirstNaming(store, o, o[j1]), FirstNaming(store, o, o[j2]);
      assert i1 <= i2 < j2;
      DepthMonotone(store, o, i1, i2);
    }
  }

  /** A parent of a commit in a breadth-first order lies at most one level
      deeper than the commit. */
  lemma ParentDepth(store: Store, o: seq<CommitId>, i: nat, j: nat)
    requires BreadthFirst(store, o) && i < |o| && 0 < j < |o| && Names(store, o[i], o[j])
    ensures Depth(store, o, j) <= Depth(store, o, i) + 1
  {
    var k := FirstNaming(store, o, o[j]);
    assert k <= i;
    DepthMonotone(store, o, k, i);
  }

  /** bfsSearchHistoryFrom polls by depth: commits nearer the start come out
      of the queue first. */
  lemma {:induction false} BfsSearchPollsByDepth(store: Store, start: CommitId, dest: Option<set<CommitId>>, j1: nat, j2: nat)
    requires Closed(store) && start in store
    requires j1 <= j2 < |BfsSearch(store, start, dest).order|
    ensures var o := BfsSearch(store, start, dest).order;
      Depth(store, o, j1) <= Depth(store, o, j2)
  {
    DepthMonotone(store, BfsSearch(store, start, dest).order, j1, j2);
  }

  /** The full history of `head` (global listing and fetch): every ancestor,
      each once. */
  function History(store: Store, head: CommitId): (r: set<CommitId>)
    requires Closed(store) && head in store
    ensures r == AncestorSet(store, head)
    ensures head in r
  {
    AncestorOfSelf(store, head);
    BfsSearch(store, head, None).visited
  }

  /** getSplitPoint: the ancestors of `head` are collected first; then the
      search from `other` returns the first commit it polls among them. */
  function SplitPoint(store: Store, head: CommitId, other: CommitId): (r: Option<CommitId>)
    requires Closed(store) && head in store && other in store
    ensures r.Some? ==> IsAncestor(store, r.value, head) && IsAncestor(store, r.value, other)
    ensures r.None? <==> AncestorSet(store, head) !! AncestorSet(store, other)
    ensures IsAncestor(store, other, head) ==> r == Some(other)
    ensures r == FirstIn(BfsSearch(store, other, None).order, AncestorSet(store, head))
  {
    var headHistory := BfsSearch(store, head, None).visited;
    var s := BfsSearch(store, other, Some(headHistory));
    SplitPointFacts(store, head, other, headHistory, s);
    s.found
  }

  lemma SplitPointFacts(store: Store, head: CommitId, other: CommitId, headHistory: set<CommitId>, s: Search)
    requires Closed(store) && head in store && other in store
    requires headHistory == BfsSearch(store, head, None).visited
    requires s == BfsSearch(store, other, Some(headHistory))
    ensures headHistory == AncestorSet(store, head)
    ensures s.found.Some? ==> IsAncestor(store, s.found.value, head) && IsAncestor(store, s.found.value, other)
    ensures s.found.None? <==> AncestorSet(store, head) !! AncestorSet(store, other)
    ensures IsAncestor(store, other, head) ==> s.found == Some(other)
    ensures s.found == FirstIn(BfsSearch(store, other, None).order, AncestorSet(store, head))
  {
    AncestorOfSelf(store, other);
    if s.found.Some? {
      assert s.found.value in Elems(s.order);
    }
    if IsAncestor(store, other, head) {
      assert other in headHistory;
      assert s.order[0] == other;
    }
    BfsDestIsFirstOfFullOrder(store, other, [other], 0, headHistory);
  }

  /** The fast-forward test of push: the search from the local head towards
      the remote head finds it exactly when the remote head is the local head
      or one of its ancestors. */
  function IsFastForward(store: Store, localHead: CommitId, remoteHead: CommitId): (r: bool)
    requires Closed(store) && localHead in store
    ensures r <==> IsAncestor(store, remoteHead, localHead)
  {
    var s := BfsSearch(store, localHead, Some({remoteHead}));
    AncestorsAreStored(store, remoteHead, localHead);
    if s.found.Some? then
      assert s.found.value in Elems(s.order);
      true
    else false
  }

  /** Only stored commits are ancestors. */
  lemma AncestorsAreStored(store: Store, a: CommitId, x: CommitId)
    ensures IsAncestor(store, a, x) <==> a in AncestorSet(store, x)
  {
    if IsAncestor(store, a, x) {
      var p :| IsChain(store, p) && p[0] == x && p[|p| - 1] == a;
    }
  }

  // ---------------------------------------------------------------------
  // The first-parent walk of log

  /** log: the ids it prints, head first, each followed by its first
      parent, until a commit without one; `fuel` bounds the number of
      steps (the source has no bound). */
  function FirstParentLog(store: Store, id: CommitId, fuel: nat): (log: seq<CommitId>)
    requires Closed(store) && id in store
    ensures |log| > 0 && log[0] == id
    ensures IsChain(store, log)
    ensures forall i :: 0 < i < |log| ==> log[i] == store[log[i - 1]].parent1
    ensures store[log[|log| - 1]].parent1 == "" || |log| == fuel + 1
    decreases fuel
  {
    var p := store[id].parent1;
    if p == "" || fuel == 0 then [id]
    else
      var rest := FirstParentLog(store, p, fuel - 1);
      ChainCons(store, id, rest);
      [id] + rest
  }

  /** A stored commit followed by a chain starting at one of its parents is
      a chain. */
  lemma ChainCons(store: Store, id: CommitId, rest: seq<CommitId>)
    requires id in store && IsChain(store, rest) && rest[0] in Parents(store[id])
    ensures IsChain(store, [id] + rest) && ([id] + rest)[0] == id
    ensures forall i :: 0 < i < |rest| + 1 ==> ([id] + rest)[i] == rest[i - 1]
  {
    var log := [id] + rest;
    assert forall i :: 0 < i < |log| ==> log[i] == rest[i - 1];
  }

  /** Every commit log prints is in the head's history. */
  lemma LogShowsHistory(store: Store, id: CommitId, fuel: nat)
    requires Closed(store) && id in store
    ensures forall i :: 0 <= i < |FirstParentLog(store, id, fuel)| ==>
      FirstParentLog(store, id, fuel)[i] in AncestorSet(store, id)
  {
    var log := FirstParentLog(store, id, fuel);
    forall i | 0 <= i < |log|
      ensures log[i] in AncestorSet(store, id)
    {
      ChainPrefix(store, log, i + 1);
      assert IsAncestor(store, log[i], id);
    }
  }

  /** A non-empty prefix of a chain is a chain with the same first commit. */
  lemma ChainPrefix(store: Store, p: seq<CommitId>, k: nat)
    requires IsChain(store, p) && 0 < k <= |p|
    ensures IsChain(store, p[..k]) && p[..k][0] == p[0] && p[..k][k - 1] == p[k - 1]
  {
    assert forall i :: 0 <= i < k ==> p[..k][i] == p[i];
  }
}
