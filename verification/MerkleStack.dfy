/** The tree hash, independently of how it is split: entries appended one by one to a stack of
    perfect subtrees, with the prefix bytes of RFC 6962 section 2.1, end in the same root. */
module MerkleStack {
  import opened Basics
  import opened MerkleTree

  // ---- the three shapes of a tree ----

  lemma SmallTrees(sha: Sha, e: Bytes)
    ensures Mth(sha, []) == sha([])
    ensures Mth(sha, [e]) == sha([0] + e)
  {
  }

  lemma {:induction false} Pow2IsPow2(h: nat)
    ensures IsPow2(Pow2(h))
  {
    if h > 0 { Pow2IsPow2(h - 1); }
  }

  /** A perfect tree in front of a tree that is not larger: one node above both. */
  lemma {:induction false} NodeAbove(sha: Sha, h: nat, a: seq<Bytes>, b: seq<Bytes>)
    requires |a| == Pow2(h) && 0 < |b| <= |a|
    ensures Mth(sha, a + b) == sha([1] + Mth(sha, a) + Mth(sha, b))
  {
    Pow2IsPow2(h);
    SplitUnique(|a + b|, |a|);
    assert (a + b)[..|a|] == a && (a + b)[|a|..] == b;
  }

  // ---- appending to a stack of perfect trees ----

  datatype Perfect = Perfect(height: nat, root: Digest)

  /** Two perfect trees of one height become one, and so on towards the left. */
  function Merged(sha: Sha, stack: seq<Perfect>, t: Perfect): seq<Perfect> {
    if stack != [] && Last(stack).height == t.height
    then Merged(sha, Front(stack), Perfect(t.height + 1, sha([1] + Last(stack).root + t.root)))
    else stack + [t]
  }

  /** The stack after appending the entries one by one. */
  function Stack(sha: Sha, entries: seq<Bytes>): seq<Perfect> {
    if entries == [] then []
    else Merged(sha, Stack(sha, Front(entries)), Perfect(0, sha([0] + Last(entries))))
  }

  /** Hashing a stack together from the right, starting with acc. */
  function Bagged(sha: Sha, stack: seq<Perfect>, acc: Digest): Digest {
    if stack == [] then acc else Bagged(sha, Front(stack), sha([1] + Last(stack).root + acc))
  }

  /** The stack covers the entries: perfect trees of falling height, each over its own entries. */
  ghost predicate Covers(sha: Sha, stack: seq<Perfect>, entries: seq<Bytes>)
    decreases |stack|
  {
    if stack == [] then entries == []
    else
      var t := Last(stack);
      var k := Pow2(t.height);
      && k <= |entries| && t.root == Mth(sha, entries[|entries| - k..])
      && (|stack| > 1 ==> Last(Front(stack)).height > t.height)
      && Covers(sha, Front(stack), entries[..|entries| - k])
  }

  lemma {:induction false} CoversSnoc(sha: Sha, stack: seq<Perfect>, t: Perfect, a: seq<Bytes>, b: seq<Bytes>)
    requires Covers(sha, stack, a) && |b| == Pow2(t.height) && t.root == Mth(sha, b)
    requires stack != [] ==> Last(stack).height > t.height
    ensures Covers(sha, stack + [t], a + b)
  {
    hide Mth;
    assert (a + b)[|a + b| - |b|..] == b && (a + b)[..|a + b| - |b|] == a;
    assert Front(stack + [t]) == stack;
  }

  lemma {:induction false} CoversLast(sha: Sha, stack: seq<Perfect>, a: seq<Bytes>)
    requires Covers(sha, stack, a) && stack != []
    ensures var k := Pow2(Last(stack).height);
            && k <= |a| && Last(stack).root == Mth(sha, a[|a| - k..]) && Covers(sha, Front(stack), a[..|a| - k])
            && (|stack| > 1 ==> Last(Front(stack)).height > Last(stack).height)
  {
    hide Mth;
  }

  lemma MergeTwo(sha: Sha, t: Perfect, u: Perfect, c: seq<Bytes>, b: seq<Bytes>)
    requires t.height == u.height && |c| == |b| == Pow2(t.height) && t.root == Mth(sha, c) && u.root == Mth(sha, b)
    ensures |c + b| == Pow2(t.height + 1) && sha([1] + t.root + u.root) == Mth(sha, c + b)
  {
    NodeAbove(sha, t.height, c, b);
  }

  lemma {:induction false} MergedCovers(sha: Sha, stack: seq<Perfect>, t: Perfect, a: seq<Bytes>, b: seq<Bytes>)
    requires Covers(sha, stack, a) && |b| == Pow2(t.height) && t.root == Mth(sha, b)
    requires stack != [] ==> Last(stack).height >= t.height
    ensures Covers(sha, Merged(sha, stack, t), a + b)
    decreases |stack|
  {
    hide Mth, Covers, Pow2;
    if stack != [] && Last(stack).height == t.height {
      CoversLast(sha, stack, a);
      var front, c := a[..|a| - |b|], a[|a| - |b|..];
      MergeTwo(sha, Last(stack), t, c, b);
      MergedCovers(sha, Front(stack), Perfect(t.height + 1, sha([1] + Last(stack).root + t.root)), front, c + b);
      assert front + (c + b) == a + b;
    } else {
      CoversSnoc(sha, stack, t, a, b);
    }
  }

  lemma {:induction false} StackCovers(sha: Sha, entries: seq<Bytes>)
    ensures Covers(sha, Stack(sha, entries), entries)
  {
    hide Covers, Merged;
    if entries == [] {
      NothingCovers(sha);
    } else {
      var e := Last(entries);
      StackCovers(sha, Front(entries));
      SmallTrees(sha, e);
      MergedCovers(sha, Stack(sha, Front(entries)), Perfect(0, sha([0] + e)), Front(entries), [e]);
      assert Front(entries) + [e] == entries;
    }
  }

  lemma NothingCovers(sha: Sha)
    ensures Covers(sha, [], [])
  {
  }

  lemma {:induction false} Pow2Grows(m: nat, n: nat)
    requires m < n
    ensures 2 * Pow2(m) <= Pow2(n)
  {
    if m + 1 < n { Pow2Grows(m, n - 1); }
  }

  /** Bagging a stack onto the hash of what follows gives the hash of everything. */
  lemma {:induction false} BaggedIsMth(sha: Sha, stack: seq<Perfect>, a: seq<Bytes>, b: seq<Bytes>)
    requires Covers(sha, stack, a) && b != [] && (stack != [] ==> |b| <= Pow2(Last(stack).height))
    ensures Bagged(sha, stack, Mth(sha, b)) == Mth(sha, a + b)
    decreases |stack|
  {
    hide Mth;
    if stack == [] {
      assert a + b == b;
    } else {
      var k := Pow2(Last(stack).height);
      var c, front := a[|a| - k..], a[..|a| - k];
      NodeAbove(sha, Last(stack).height, c, b);
      if |stack| > 1 { Pow2Grows(Last(stack).height, Last(Front(stack)).height); }
      BaggedIsMth(sha, Front(stack), front, c + b);
      assert front + (c + b) == a + b;
    }
  }

  /** The root of the log is what the stack ends in: leaves are hashed behind a zero byte, nodes
      behind a one byte, an empty log is the hash of nothing, and no split point is ever computed. */
  lemma {:induction false} AppendingEndsInMth(sha: Sha, entries: seq<Bytes>)
    ensures var stack := Stack(sha, entries);
            Mth(sha, entries) == if stack == [] then sha([]) else Bagged(sha, Front(stack), Last(stack).root)
    ensures Stack(sha, entries) == [] <==> entries == []
  {
    var stack := Stack(sha, entries);
    StackCovers(sha, entries);
    hide Mth, Stack;
    if stack == [] {
      SmallTrees(sha, []);
    } else {
      var k := Pow2(Last(stack).height);
      if |stack| > 1 { Pow2Grows(Last(stack).height, Last(Front(stack)).height); }
      BaggedIsMth(sha, Front(stack), entries[..|entries| - k], entries[|entries| - k..]);
      assert entries[..|entries| - k] + entries[|entries| - k..] == entries;
    }
  }

  // ---- the proofs, on the example of RFC 9162 section 2.1.5 ----

  /** Audit paths and consistency proofs across the node above a and b. */
  lemma {:induction false} ProofsAcross(sha: Sha, h: nat, a: seq<Bytes>, b: seq<Bytes>, m: nat)
    requires |a| == Pow2(h) && 0 < |b| <= |a|
    ensures m < |a| ==> Path(sha, m, a + b) == Path(sha, m, a) + [Mth(sha, b)]
    ensures |a| <= m < |a| + |b| ==> Path(sha, m, a + b) == Path(sha, m - |a|, b) + [Mth(sha, a)]
    ensures 0 < m <= |a| ==> Subproof(sha, m, a + b, true) == Subproof(sha, m, a, true) + [Mth(sha, b)]
    ensures |a| < m < |a| + |b| ==> Subproof(sha, m, a + b, true) == Subproof(sha, m - |a|, b, false) + [Mth(sha, a)]
    ensures 0 < m <= |a| ==> Subproof(sha, m, a + b, false) == Subproof(sha, m, a, false) + [Mth(sha, b)]
  {
    Pow2IsPow2(h);
    SplitUnique(|a + b|, |a|);
    assert (a + b)[..|a|] == a && (a + b)[|a|..] == b;
    hide Mth;
  }

  lemma SingleProofs(sha: Sha, e: Bytes)
    ensures Path(sha, 0, [e]) == []
    ensures Subproof(sha, 1, [e], true) == [] && Subproof(sha, 1, [e], false) == [sha([0] + e)]
  {
  }

  /** Seven entries: the leaf hashes a to f and j, the nodes g to i, k and l, the root and the
      audit paths the standard lists for them. */
  lemma SevenPaths(sha: Sha, p: seq<Bytes>, q: seq<Bytes>)
    requires |p| == 4 && |q| == 3
    ensures var (a, b, c, d) := (sha([0] + p[0]), sha([0] + p[1]), sha([0] + p[2]), sha([0] + p[3]));
            var (e, f, j) := (sha([0] + q[0]), sha([0] + q[1]), sha([0] + q[2]));
            var (g, h, i) := (sha([1] + a + b), sha([1] + c + d), sha([1] + e + f));
            var (k, l) := (sha([1] + g + h), sha([1] + i + j));
            && Mth(sha, p + q) == sha([1] + k + l)
            && Path(sha, 0, p + q) == [b, h, l] && Path(sha, 3, p + q) == [c, g, l]
            && Path(sha, 4, p + q) == [f, j, k] && Path(sha, 6, p + q) == [i, k]
  {
    FourEntries(sha, p);
    ThreeEntries(sha, q);
    hide Mth, Path, Subproof;
    NodeAbove(sha, 2, p, q);
    ProofsAcross(sha, 2, p, q, 0);
    ProofsAcross(sha, 2, p, q, 3);
    ProofsAcross(sha, 2, p, q, 4);
    ProofsAcross(sha, 2, p, q, 6);
  }

  /** ... and the consistency proofs it lists for their trees of three, four and six entries. */
  lemma SevenConsistencies(sha: Sha, p: seq<Bytes>, q: seq<Bytes>)
    requires |p| == 4 && |q| == 3
    ensures var (a, b, c, d) := (sha([0] + p[0]), sha([0] + p[1]), sha([0] + p[2]), sha([0] + p[3]));
            var (e, f, j) := (sha([0] + q[0]), sha([0] + q[1]), sha([0] + q[2]));
            var (g, h, i) := (sha([1] + a + b), sha([1] + c + d), sha([1] + e + f));
            var (k, l) := (sha([1] + g + h), sha([1] + i + j));
            && Subproof(sha, 3, p + q, true) == [c, d, g, l] && Subproof(sha, 4, p + q, true) == [l]
            && Subproof(sha, 6, p + q, true) == [i, j, k]
  {
    FourEntries(sha, p);
    ThreeEntries(sha, q);
    hide Mth, Path, Subproof;
    ProofsAcross(sha, 2, p, q, 3);
    ProofsAcross(sha, 2, p, q, 4);
    ProofsAcross(sha, 2, p, q, 6);
    WholeProof(sha, p);
  }

  lemma FourEntries(sha: Sha, s: seq<Bytes>)
    requires |s| == 4
    ensures var (a, b, c, d) := (sha([0] + s[0]), sha([0] + s[1]), sha([0] + s[2]), sha([0] + s[3]));
            var (g, h) := (sha([1] + a + b), sha([1] + c + d));
            && Mth(sha, s) == sha([1] + g + h) && Path(sha, 0, s) == [b, h] && Path(sha, 3, s) == [c, g]
            && Subproof(sha, 3, s, true) == [c, d, g]
  {
    PairProofs(sha, s[0], s[1]);
    PairProofs(sha, s[2], s[3]);
    hide Mth, Path, Subproof;
    var p, q := [s[0]] + [s[1]], [s[2]] + [s[3]];
    assert s == p + q;
    NodeAbove(sha, 1, p, q);
    ProofsAcross(sha, 1, p, q, 0);
    ProofsAcross(sha, 1, p, q, 3);
  }

  lemma ThreeEntries(sha: Sha, s: seq<Bytes>)
    requires |s| == 3
    ensures var (e, f, j) := (sha([0] + s[0]), sha([0] + s[1]), sha([0] + s[2]));
            var i := sha([1] + e + f);
            && Mth(sha, s) == sha([1] + i + j) && Path(sha, 0, s) == [f, j] && Path(sha, 2, s) == [i]
            && Subproof(sha, 2, s, false) == [i, j]
  {
    PairProofs(sha, s[0], s[1]);
    SmallTrees(sha, s[2]);
    SingleProofs(sha, s[2]);
    hide Mth, Path, Subproof;
    var p, q := [s[0]] + [s[1]], [s[2]];
    assert s == p + q;
    NodeAbove(sha, 1, p, q);
    ProofsAcross(sha, 1, p, q, 0);
    ProofsAcross(sha, 1, p, q, 2);
    WholeProof(sha, p);
  }

  lemma WholeProof(sha: Sha, a: seq<Bytes>)
    requires a != []
    ensures Subproof(sha, |a|, a, true) == [] && Subproof(sha, |a|, a, false) == [Mth(sha, a)]
  {
    hide Mth;
  }

  lemma PairProofs(sha: Sha, y: Bytes, z: Bytes)
    ensures var (a, b) := (sha([0] + y), sha([0] + z));
            && Mth(sha, [y] + [z]) == sha([1] + a + b)
            && Path(sha, 0, [y] + [z]) == [b] && Path(sha, 1, [y] + [z]) == [a]
            && Subproof(sha, 1, [y] + [z], true) == [b] && Subproof(sha, 1, [y] + [z], false) == [a, b]
  {
    SmallTrees(sha, y);
    SmallTrees(sha, z);
    SingleProofs(sha, y);
    SingleProofs(sha, z);
    NodeAbove(sha, 0, [y], [z]);
    ProofsAcross(sha, 0, [y], [z], 0);
    ProofsAcross(sha, 0, [y], [z], 1);
    hide Mth, Path, Subproof;
  }
}
