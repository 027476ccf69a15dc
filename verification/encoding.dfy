/** A collision-free hasher exists. Commits are serialized into strings by
    a prefix-free code, so the serialization itself is a commit id function
    that never gives "" and never maps two commits to one id; with the
    identity as blob id function it satisfies `ValidHasher`, and `Init`
    under it builds a repository satisfying `Valid`. */
module Encoding {
  import opened Objects
  import opened Repository

  /** `n` copies of 'a'. */
  function Ones(n: nat): (s: string)
    ensures |s| == n && forall i :: 0 <= i < n ==> s[i] == 'a'
  {
    seq(n, _ => 'a')
  }

  /** A string preceded by its length in unary and a 'b': no code is a
      proper prefix of another. */
  function Code(s: string): (c: string)
    ensures |c| == 2 * |s| + 1
  {
    Ones(|s|) + ("b" + s)
  }

  lemma CodeShape(s: string)
    ensures forall i :: 0 <= i < |s| ==> Code(s)[i] == 'a'
    ensures Code(s)[|s|] == 'b' && Code(s)[|s| + 1..] == s
  {
  }

  /** The pieces of a prefix of `l` are found in `l` one after another. */
  lemma Tail(p: string, q: string, l: string)
    requires p + q <= l
    ensures p <= l && q <= l[|p|..]
  {
    assert forall i :: 0 <= i < |q| ==> q[i] == (p + q)[|p| + i] == l[|p| + i];
  }

  /** Two codes at the start of one string code the same string. */
  lemma CodePrefix(a: string, b: string, l: string)
    requires Code(a) <= l && Code(b) <= l
    ensures a == b
  {
    CodeShape(a);
    CodeShape(b);
    assert forall i :: 0 <= i < |a| ==> l[i] == 'a';
    assert l[|a|] == 'b' && l[|b|] == 'b';
    assert |a| == |b|;
    assert a == Code(a)[|a| + 1..] == l[|a| + 1..2 * |a| + 1] == Code(b)[|b| + 1..] == b;
  }

  /** Reading one code off the front of `l`: both readings agree, and what
      follows starts right after it. */
  lemma Peel(a: string, b: string, x: string, y: string, l: string)
    requires Code(a) + x <= l && Code(b) + y <= l
    ensures a == b && x <= l[|Code(a)|..] && y <= l[|Code(a)|..]
  {
    Tail(Code(a), x, l);
    Tail(Code(b), y, l);
    CodePrefix(a, b, l);
  }

  /** An integer as a sign letter and its magnitude in unary. */
  function IntCode(i: int): (s: string)
    ensures |s| > 0 && (s[0] == 'p' <==> i >= 0) && |s| == 1 + (if i >= 0 then i else -i)
  {
    if i >= 0 then "p" + Ones(i) else "n" + Ones(-i)
  }

  lemma IntCodeInjective(i: int, j: int)
    requires IntCode(i) == IntCode(j)
    ensures i == j
  {
  }

  /** Some key of a non-empty map; which one does not matter, only that
      equal maps give the same key. */
  ghost function Pick(m: map<string, string>): (k: string)
    requires |m| > 0
    ensures k in m && |m - {k}| == |m| - 1
  {
    var k :| k in m;
    assert (m - {k}).Keys == m.Keys - {k};
    k
  }

  /** A finite map as a list of key and value codes, each entry announced by
      'k' and the list closed by 'e'. */
  ghost function MapCode(m: map<string, string>): (s: string)
    ensures |s| > 0 && (s[0] == 'e' <==> |m| == 0)
    decreases |m|
  {
    if |m| == 0 then "e"
    else
      var k := Pick(m);
      "k" + (Code(k) + (Code(m[k]) + MapCode(m - {k})))
  }

  /** Two map codes at the start of one string code the same map. */
  lemma {:induction false} MapCodePrefix(m1: map<string, string>, m2: map<string, string>, l: string)
    requires MapCode(m1) <= l && MapCode(m2) <= l
    ensures m1 == m2
    decreases |m1|
  {
    assert l[0] == MapCode(m1)[0] == MapCode(m2)[0];
    if |m1| != 0 {
      var k1, k2 := Pick(m1), Pick(m2);
      var r1, r2 := MapCode(m1 - {k1}), MapCode(m2 - {k2});
      Tail("k", Code(k1) + (Code(m1[k1]) + r1), l);
      Tail("k", Code(k2) + (Code(m2[k2]) + r2), l);
      Peel(k1, k2, Code(m1[k1]) + r1, Code(m2[k2]) + r2, l[1..]);
      var l' := l[1..][|Code(k1)|..];
      Peel(m1[k1], m2[k2], r1, r2, l');
      MapCodePrefix(m1 - {k1}, m2 - {k2}, l'[|Code(m1[k1])|..]);
      MapRebuild(m1, k1);
      MapRebuild(m2, k2);
    }
  }

  /** A map is its entry for `k` put back into the rest. */
  lemma MapRebuild(m: map<string, string>, k: string)
    requires k in m
    ensures m == (m - {k})[k := m[k]]
  {
  }

  /** A commit serialized field by field. */
  ghost function CommitCode(c: Commit): (s: string)
    ensures |s| > 0
  {
    "c" + (Code(c.message) + (Code(IntCode(c.timestamp)) + (MapCode(c.files) + (Code(c.parent1) + Code(c.parent2)))))
  }

  /** Two commits with the same serialization are the same commit. */
  lemma CommitCodeInjective(a: Commit, b: Commit)
    requires CommitCode(a) == CommitCode(b)
    ensures a == b
  {
    var l := CommitCode(a);
    var fa := MapCode(a.files) + (Code(a.parent1) + Code(a.parent2));
    var fb := MapCode(b.files) + (Code(b.parent1) + Code(b.parent2));
    Tail("c", Code(a.message) + (Code(IntCode(a.timestamp)) + fa), l);
    Tail("c", Code(b.message) + (Code(IntCode(b.timestamp)) + fb), l);
    var l1 := l[1..];
    Peel(a.message, b.message, Code(IntCode(a.timestamp)) + fa, Code(IntCode(b.timestamp)) + fb, l1);
    var l2 := l1[|Code(a.message)|..];
    Peel(IntCode(a.timestamp), IntCode(b.timestamp), fa, fb, l2);
    IntCodeInjective(a.timestamp, b.timestamp);
    var l3 := l2[|Code(IntCode(a.timestamp))|..];
    Tail(MapCode(a.files), Code(a.parent1) + Code(a.parent2), l3);
    Tail(MapCode(b.files), Code(b.parent1) + Code(b.parent2), l3);
    MapCodePrefix(a.files, b.files, l3);
    var l4 := l3[|MapCode(a.files)|..];
    Peel(a.parent1, b.parent1, Code(a.parent2), Code(b.parent2), l4);
    var l5 := l4[|Code(a.parent1)|..];
    Peel(a.parent2, b.parent2, [], [], l5);
  }

  /** Serialization as the commit id, the contents themselves as the blob
      id. */
  ghost function CodeHasher(): Hasher {
    Hasher(c => CommitCode(c), s => s)
  }

  lemma CodeHasherIsValid()
    ensures ValidHasher(CodeHasher())
  {
    forall a, b | CodeHasher().commitId(a) == CodeHasher().commitId(b)
      ensures a == b
    {
      CommitCodeInjective(a, b);
    }
  }

  /** The repository invariant is satisfiable: `init` under this hasher
      meets it. */
  lemma ValidRepositoryExists(cwd: map<string, Content>)
    ensures ValidHasher(CodeHasher())
    ensures Valid(CodeHasher(), Init(CodeHasher(), cwd))
  {
    CodeHasherIsValid();
  }
}
