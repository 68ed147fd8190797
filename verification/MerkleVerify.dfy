/** The RFC 9162 verifiers as the source runs them, and exactly what they accept. */
module MerkleVerify {
  import opened Basics
  import opened MerkleTree
  import opened MerkleTurns

  /** The root a walk up reaches. */
  function FoldNew(sha: Sha, turns: seq<Turn>, proof: seq<Digest>, start: Digest): Digest
    requires |turns| == |proof|
    decreases |turns|
  {
    if turns == [] then start
    else
      var below := FoldNew(sha, Front(turns), Front(proof), start);
      if Last(turns) == SiblingLeft then HashNode(sha, Last(proof), below)
      else HashNode(sha, below, Last(proof))
  }

  /** The root the same walk reaches in the older tree, where right siblings do not exist yet. */
  function FoldOld(sha: Sha, turns: seq<Turn>, proof: seq<Digest>, start: Digest): Digest
    requires |turns| == |proof|
    decreases |turns|
  {
    if turns == [] then start
    else
      var below := FoldOld(sha, Front(turns), Front(proof), start);
      if Last(turns) == SiblingLeft then HashNode(sha, Last(proof), below) else below
  }

  /** The node strings FoldNew hashes. */
  ghost function WalkPreimages(sha: Sha, turns: seq<Turn>, proof: seq<Digest>, start: Digest): set<Bytes>
    requires |turns| == |proof|
    decreases |turns|
  {
    if turns == [] then {}
    else
      var below := FoldNew(sha, Front(turns), Front(proof), start);
      (if Last(turns) == SiblingLeft then {NodePreimage(Last(proof), below)}
       else {NodePreimage(below, Last(proof))})
      + WalkPreimages(sha, Front(turns), Front(proof), start)
  }

  predicate InclusionAccepts(sha: Sha, entry: Bytes, index: int, size: int, proof: seq<Digest>, root: Digest) {
    && 0 <= index < size
    && var turns := InclusionTurns(index, size);
    && |proof| == |turns|
    && FoldNew(sha, turns, proof, HashLeaf(sha, entry)) == root
  }

  /** What is left of the proof once the start has been taken from it. */
  function ProofStart(oldSize: int, newSize: int, proof: seq<Digest>, oldRoot: Digest)
    : Option<(Digest, seq<Digest>)>
    requires 0 < oldSize < newSize
  {
    if StripOdd(Counters(oldSize - 1, newSize - 1)).fn == 0 then Some((oldRoot, proof))
    else if proof == [] then None
    else Some((proof[0], proof[1..]))
  }

  predicate ConsistencyAccepts(sha: Sha, oldSize: int, newSize: int, proof: seq<Digest>,
                               oldRoot: Digest, newRoot: Digest)
  {
    if oldSize < 0 || newSize <= 0 || oldSize > newSize then false
    else if oldSize == newSize then proof == [] && oldRoot == newRoot
    else if oldSize == 0 then proof == [] && oldRoot == sha([])
    else
      var turns := ConsistencyTurns(oldSize, newSize);
      match ProofStart(oldSize, newSize, proof, oldRoot)
      case None => false
      case Some((start, rest)) =>
        && |rest| == |turns|
        && FoldOld(sha, turns, rest, start) == oldRoot
        && FoldNew(sha, turns, rest, start) == newRoot
  }

  // ---- the loops ----

  lemma FoldStep(sha: Sha, turns: seq<Turn>, proof: seq<Digest>, start: Digest, i: nat)
    requires i < |turns| && i < |proof|
    ensures FoldNew(sha, turns[..i + 1], proof[..i + 1], start)
         == var below := FoldNew(sha, turns[..i], proof[..i], start);
            if turns[i] == SiblingLeft then HashNode(sha, proof[i], below) else HashNode(sha, below, proof[i])
    ensures FoldOld(sha, turns[..i + 1], proof[..i + 1], start)
         == var below := FoldOld(sha, turns[..i], proof[..i], start);
            if turns[i] == SiblingLeft then HashNode(sha, proof[i], below) else below
  {
    assert Front(turns[..i + 1]) == turns[..i] && Front(proof[..i + 1]) == proof[..i];
  }

  lemma FoldNothing(sha: Sha, start: Digest)
    ensures FoldNew(sha, [], [], start) == start && FoldOld(sha, [], [], start) == start
  {
  }

  /** One pass of the main loop, seen from the whole list of turns. */
  lemma LoopStep(sha: Sha, turns: seq<Turn>, proof: seq<Digest>, start: Digest, i: nat, c: Counters)
    requires i <= |turns| && i < |proof| && c.fn <= c.sn && c.sn > 0 && turns[i..] == Turns(c)
    ensures i < |turns| && turns[i + 1..] == Turns(Shift(c))
    ensures FoldNew(sha, turns[..i + 1], proof[..i + 1], start)
         == var below := FoldNew(sha, turns[..i], proof[..i], start);
            if TurnOf(c) == SiblingLeft then HashNode(sha, proof[i], below) else HashNode(sha, below, proof[i])
    ensures FoldOld(sha, turns[..i + 1], proof[..i + 1], start)
         == var below := FoldOld(sha, turns[..i], proof[..i], start);
            if TurnOf(c) == SiblingLeft then HashNode(sha, proof[i], below) else below
  {
    TurnsCons(c);
    assert turns[i] == turns[i..][0] && turns[i + 1..] == turns[i..][1..];
    FoldStep(sha, turns, proof, start, i);
  }

  method ShiftEven(fn0: nat, sn0: nat) returns (fn: nat, sn: nat)
    requires fn0 <= sn0
    ensures Counters(fn, sn) == StripEven(Counters(fn0, sn0))
  {
    fn, sn := fn0, sn0;
    while fn % 2 == 0 && fn != 0
      invariant fn <= sn
      invariant StripEven(Counters(fn, sn)) == StripEven(Counters(fn0, sn0))
      decreases fn
    {
      fn, sn := fn / 2, sn / 2;
    }
  }

  method ShiftOdd(fn0: nat, sn0: nat) returns (fn: nat, sn: nat)
    requires fn0 <= sn0
    ensures Counters(fn, sn) == StripOdd(Counters(fn0, sn0))
  {
    fn, sn := fn0, sn0;
    while fn % 2 == 1
      invariant fn <= sn
      invariant StripOdd(Counters(fn, sn)) == StripOdd(Counters(fn0, sn0))
      decreases fn
    {
      fn, sn := fn / 2, sn / 2;
    }
  }

  method VerifyInclusion(sha: Sha, entry: Bytes, index: int, size: int, proof: seq<Digest>, root: Digest)
    returns (ok: bool)
    ensures ok == InclusionAccepts(sha, entry, index, size, proof, root)
    ensures index < 0 || index >= size ==> !ok
  {
    hide FoldNew, FoldOld, HashNode, HashLeaf, StripEven;
    FoldNothing(sha, HashLeaf(sha, entry));
    if index < 0 || index >= size { return false; }
    var fn: nat, sn: nat := index, size - 1;
    var r := HashLeaf(sha, entry);
    ghost var turns := InclusionTurns(index, size);
    var i := 0;
    assert turns[0..] == turns;
    while i < |proof|
      invariant fn <= sn
      invariant 0 <= i <= |proof| && i <= |turns|
      invariant turns[i..] == Turns(Counters(fn, sn))
      invariant r == FoldNew(sha, turns[..i], proof[..i], HashLeaf(sha, entry))
    {
      if sn == 0 { return false; }
      var p := proof[i];
      LoopStep(sha, turns, proof, HashLeaf(sha, entry), i, Counters(fn, sn));
      if fn % 2 == 1 || fn == sn {
        r := HashNode(sha, p, r);
        fn, sn := ShiftEven(fn, sn);
      } else {
        r := HashNode(sha, r, p);
      }
      fn, sn := fn / 2, sn / 2;
      i := i + 1;
    }
    assert proof[..i] == proof;
    if sn == 0 { assert turns[..i] == turns; }
    return sn == 0 && r == root;
  }

  method VerifyConsistency(sha: Sha, oldSize: int, newSize: int, proof: seq<Digest>,
                           oldRoot: Digest, newRoot: Digest)
    returns (ok: bool)
    ensures ok == ConsistencyAccepts(sha, oldSize, newSize, proof, oldRoot, newRoot)
    ensures oldSize < 0 || newSize <= 0 || oldSize > newSize ==> !ok
    ensures 0 < oldSize == newSize ==> (ok <==> proof == [] && oldRoot == newRoot)
    ensures 0 == oldSize < newSize ==> (ok <==> proof == [] && oldRoot == sha([]))
  {
    hide FoldOld, FoldNew, HashNode, StripOdd, StripEven, Mth;
    if oldSize < 0 || newSize <= 0 || oldSize > newSize { return false; }
    if oldSize == newSize { return |proof| == 0 && oldRoot == newRoot; }
    if oldSize == 0 { return |proof| == 0 && oldRoot == sha([]); }
    var fn, sn := ShiftOdd(oldSize - 1, newSize - 1);
    var fr, sr, idx := oldRoot, oldRoot, 0;
    if fn != 0 {
      if |proof| == 0 { return false; }
      fr, sr, idx := proof[0], proof[0], 1;
    }
    ghost var turns, start, rest := ConsistencyTurns(oldSize, newSize), fr, proof[idx..];
    ghost var i := 0;
    assert turns[0..] == turns;
    FoldNothing(sha, start);
    while idx < |proof|
      invariant fn <= sn
      invariant 0 <= i <= |rest| && i <= |turns| && idx == |proof| - |rest| + i
      invariant turns[i..] == Turns(Counters(fn, sn))
      invariant fr == FoldOld(sha, turns[..i], rest[..i], start)
      invariant sr == FoldNew(sha, turns[..i], rest[..i], start)
    {
      if sn == 0 { return false; }
      var c := proof[idx];
      LoopStep(sha, turns, rest, start, i, Counters(fn, sn));
      if fn % 2 == 1 || fn == sn {
        fr := HashNode(sha, c, fr);
        sr := HashNode(sha, c, sr);
        fn, sn := ShiftEven(fn, sn);
      } else {
        sr := HashNode(sha, sr, c);
      }
      fn, sn := fn / 2, sn / 2;
      idx := idx + 1;
      i := i + 1;
    }
    assert rest[..i] == rest;
    if sn == 0 { assert turns[..i] == turns; }
    return sn == 0 && fr == oldRoot && sr == newRoot;
  }

  // ---- inclusion: accepts exactly the true entry with its audit path ----

  lemma FoldTop(sha: Sha, turns: seq<Turn>, t: Turn, proof: seq<Digest>, p: Digest, start: Digest)
    requires |turns| == |proof|
    ensures FoldNew(sha, turns + [t], proof + [p], start)
         == var below := FoldNew(sha, turns, proof, start);
            if t == SiblingLeft then HashNode(sha, p, below) else HashNode(sha, below, p)
    ensures FoldOld(sha, turns + [t], proof + [p], start)
         == var below := FoldOld(sha, turns, proof, start);
            if t == SiblingLeft then HashNode(sha, p, below) else below
  {
    assert Front(turns + [t]) == turns && Front(proof + [p]) == proof;
  }

  /** One level of the tree hash and of the strings it hashes. */
  lemma TreeTop(sha: Sha, leaves: seq<Bytes>, k: nat)
    requires |leaves| > 1 && k == Split(|leaves|)
    ensures Mth(sha, leaves) == HashNode(sha, Mth(sha, leaves[..k]), Mth(sha, leaves[k..]))
    ensures NodePreimage(Mth(sha, leaves[..k]), Mth(sha, leaves[k..])) in TreePreimages(sha, leaves)
    ensures TreePreimages(sha, leaves[..k]) <= TreePreimages(sha, leaves)
    ensures TreePreimages(sha, leaves[k..]) <= TreePreimages(sha, leaves)
  {
  }

  lemma TreeTurnsLeft(m: nat, leaves: seq<Bytes>, left: seq<Bytes>, k: nat)
    requires |leaves| > 1 && k == Split(|leaves|) && m < k && left == leaves[..k]
    ensures TreeTurns(m, |leaves|) == TreeTurns(m, |left|) + [SiblingRight]
  {
  }

  lemma TreeTurnsRight(m: nat, leaves: seq<Bytes>, right: seq<Bytes>, k: nat)
    requires |leaves| > 1 && k == Split(|leaves|) && k <= m < |leaves| && right == leaves[k..]
    ensures TreeTurns(m, |leaves|) == TreeTurns(m - k, |right|) + [SiblingLeft]
  {
  }

  lemma SubTurnsLeft(m: nat, leaves: seq<Bytes>, left: seq<Bytes>, k: nat)
    requires 0 < m < |leaves| && k == Split(|leaves|) && m <= k && left == leaves[..k]
    ensures SubTurns(m, |leaves|) == SubTurns(m, |left|) + [SiblingRight]
  {
  }

  lemma SubTurnsRight(m: nat, leaves: seq<Bytes>, right: seq<Bytes>, k: nat)
    requires 0 < m < |leaves| && k == Split(|leaves|) && m > k && right == leaves[k..]
    ensures SubTurns(m, |leaves|) == SubTurns(m - k, |right|) + [SiblingLeft]
  {
  }

  lemma PathRight(sha: Sha, m: nat, leaves: seq<Bytes>, right: seq<Bytes>, k: nat)
    requires |leaves| > 1 && k == Split(|leaves|) && k <= m < |leaves| && right == leaves[k..]
    ensures Path(sha, m, leaves) == Path(sha, m - k, right) + [Mth(sha, leaves[..k])]
  {
  }

  lemma PathLeft(sha: Sha, m: nat, leaves: seq<Bytes>, left: seq<Bytes>, k: nat)
    requires |leaves| > 1 && k == Split(|leaves|) && m < k && left == leaves[..k]
    ensures Path(sha, m, leaves) == Path(sha, m, left) + [Mth(sha, leaves[k..])]
  {
  }

  lemma {:induction false} PathAccepted(sha: Sha, m: nat, leaves: seq<Bytes>)
    requires m < |leaves|
    ensures |Path(sha, m, leaves)| == |TreeTurns(m, |leaves|)|
    ensures FoldNew(sha, TreeTurns(m, |leaves|), Path(sha, m, leaves), HashLeaf(sha, leaves[m])) == Mth(sha, leaves)
    decreases |leaves|
  {
    if |leaves| > 1 {
      var k := Split(|leaves|);
      var left, right, start := leaves[..k], leaves[k..], HashLeaf(sha, leaves[m]);
      TreeTop(sha, leaves, k);
      if m < k {
        PathAccepted(sha, m, left);
        TreeTurnsLeft(m, leaves, left, k);
        PathLeft(sha, m, leaves, left, k);
        FoldTop(sha, TreeTurns(m, |left|), SiblingRight, Path(sha, m, left), Mth(sha, right), start);
      } else {
        PathAccepted(sha, m - k, right);
        TreeTurnsRight(m, leaves, right, k);
        PathRight(sha, m, leaves, right, k);
        FoldTop(sha, TreeTurns(m - k, |right|), SiblingLeft, Path(sha, m - k, right), Mth(sha, left), start);
      }
    }
  }

  /** Equal node digests over collision-free strings have equal children. */
  lemma NodeInjective(sha: Sha, hashed: set<Bytes>, l: Digest, r: Digest, l': Digest, r': Digest)
    requires CollisionFree(sha, hashed)
    requires NodePreimage(l, r) in hashed && NodePreimage(l', r') in hashed
    requires HashNode(sha, l, r) == HashNode(sha, l', r')
    ensures l == l' && r == r'
  {
    assert Hashed(NodePreimage(l, r), hashed) && Hashed(NodePreimage(l', r'), hashed);
    PreimagesApart([], [], l, r, l', r');
  }

  lemma LeafInjective(sha: Sha, hashed: set<Bytes>, e: Bytes, e': Bytes)
    requires CollisionFree(sha, hashed)
    requires LeafPreimage(e) in hashed && LeafPreimage(e') in hashed
    requires HashLeaf(sha, e) == HashLeaf(sha, e')
    ensures e == e'
  {
    assert Hashed(LeafPreimage(e), hashed) && Hashed(LeafPreimage(e'), hashed);
    assert LeafPreimage(e)[1..] == e && LeafPreimage(e')[1..] == e';
  }

  /** A walk that reaches a known node splits there: its last sibling is one child,
      and the rest of the walk reaches the other. */
  lemma WalkTop(sha: Sha, hashed: set<Bytes>, turns: seq<Turn>, proof: seq<Digest>, start: Digest,
                left: Digest, right: Digest)
    requires turns != [] && |turns| == |proof|
    requires FoldNew(sha, turns, proof, start) == HashNode(sha, left, right)
    requires CollisionFree(sha, hashed) && NodePreimage(left, right) in hashed
    requires WalkPreimages(sha, turns, proof, start) <= hashed
    ensures WalkPreimages(sha, Front(turns), Front(proof), start) <= hashed
    ensures if Last(turns) == SiblingLeft
            then Last(proof) == left && FoldNew(sha, Front(turns), Front(proof), start) == right
            else FoldNew(sha, Front(turns), Front(proof), start) == left && Last(proof) == right
  {
    var below := FoldNew(sha, Front(turns), Front(proof), start);
    if Last(turns) == SiblingLeft {
      NodeInjective(sha, hashed, Last(proof), below, left, right);
    } else {
      NodeInjective(sha, hashed, below, Last(proof), left, right);
    }
  }

  /** `proof` walks from `start` to `root` hashing only strings in `hashed`. */
  ghost predicate Walk(sha: Sha, hashed: set<Bytes>, turns: seq<Turn>, proof: seq<Digest>, start: Digest,
                       root: Digest) {
    && |turns| == |proof|
    && FoldNew(sha, turns, proof, start) == root
    && WalkPreimages(sha, turns, proof, start) <= hashed
  }

  /** WalkTop, with the last turn split off. */
  lemma WalkSplit(sha: Sha, hashed: set<Bytes>, turns: seq<Turn>, t: Turn, proof: seq<Digest>, start: Digest,
                  left: Digest, right: Digest)
    requires Walk(sha, hashed, turns + [t], proof, start, HashNode(sha, left, right))
    requires CollisionFree(sha, hashed) && NodePreimage(left, right) in hashed
    ensures proof != [] && proof == Front(proof) + [if t == SiblingLeft then left else right]
    ensures Walk(sha, hashed, turns, Front(proof), start, if t == SiblingLeft then right else left)
  {
    assert Front(turns + [t]) == turns && Last(turns + [t]) == t;
    WalkTop(sha, hashed, turns + [t], proof, start, left, right);
    assert proof == Front(proof) + [Last(proof)];
  }

  /** A walk to the root of a list ends at its top split: the last sibling is the root of
      one half, and the rest walks to the root of the other. */
  lemma Descend(sha: Sha, hashed: set<Bytes>, leaves: seq<Bytes>, k: nat, turns: seq<Turn>, t: Turn,
                proof: seq<Digest>, start: Digest, near: seq<Bytes>, far: seq<Bytes>)
    requires |leaves| > 1 && k == Split(|leaves|)
    requires if t == SiblingLeft then near == leaves[k..] && far == leaves[..k]
             else near == leaves[..k] && far == leaves[k..]
    requires Walk(sha, hashed, turns + [t], proof, start, Mth(sha, leaves))
    requires CollisionFree(sha, hashed) && TreePreimages(sha, leaves) <= hashed
    ensures proof != [] && proof == Front(proof) + [Mth(sha, far)]
    ensures Walk(sha, hashed, turns, Front(proof), start, Mth(sha, near)) && TreePreimages(sha, near) <= hashed
  {
    TreeTop(sha, leaves, k);
    WalkSplit(sha, hashed, turns, t, proof, start, Mth(sha, leaves[..k]), Mth(sha, leaves[k..]));
  }

  /** The entry is leaf m and the proof is its audit path. */
  ghost predicate TruePath(sha: Sha, entry: Bytes, m: nat, leaves: seq<Bytes>, proof: seq<Digest>) {
    m < |leaves| && entry == leaves[m] && proof == Path(sha, m, leaves)
  }

  lemma TruePathLeft(sha: Sha, entry: Bytes, m: nat, leaves: seq<Bytes>, left: seq<Bytes>, k: nat, proof: seq<Digest>)
    requires |leaves| > 1 && k == Split(|leaves|) && m < k && left == leaves[..k]
    requires TruePath(sha, entry, m, left, proof)
    ensures TruePath(sha, entry, m, leaves, proof + [Mth(sha, leaves[k..])])
  {
    hide Path, Mth;
    PathLeft(sha, m, leaves, left, k);
  }

  lemma SuffixIndex(s: seq<Bytes>, k: nat, m: nat)
    requires k <= m < |s|
    ensures s[k..][m - k] == s[m]
  {
  }

  lemma TruePathRight(sha: Sha, entry: Bytes, m: nat, leaves: seq<Bytes>, right: seq<Bytes>, k: nat, proof: seq<Digest>)
    requires |leaves| > 1 && k == Split(|leaves|) && k <= m < |leaves| && right == leaves[k..]
    requires TruePath(sha, entry, m - k, right, proof)
    ensures TruePath(sha, entry, m, leaves, proof + [Mth(sha, leaves[..k])])
  {
    hide Path, Mth;
    PathRight(sha, m, leaves, right, k);
    SuffixIndex(leaves, k, m);
  }

  lemma WalkOfOne(sha: Sha, hashed: set<Bytes>, entry: Bytes, leaves: seq<Bytes>, proof: seq<Digest>)
    requires |leaves| == 1
    requires Walk(sha, hashed, TreeTurns(0, 1), proof, HashLeaf(sha, entry), Mth(sha, leaves))
    requires CollisionFree(sha, hashed) && LeafPreimage(entry) in hashed
    requires TreePreimages(sha, leaves) <= hashed
    ensures TruePath(sha, entry, 0, leaves, proof)
  {
    assert LeafPreimage(leaves[0]) in TreePreimages(sha, leaves);
    LeafInjective(sha, hashed, entry, leaves[0]);
  }

  lemma {:induction false} WalkIsPath(sha: Sha, hashed: set<Bytes>, entry: Bytes, m: nat, leaves: seq<Bytes>,
                                      proof: seq<Digest>)
    requires m < |leaves|
    requires Walk(sha, hashed, TreeTurns(m, |leaves|), proof, HashLeaf(sha, entry), Mth(sha, leaves))
    requires CollisionFree(sha, hashed) && LeafPreimage(entry) in hashed
    requires TreePreimages(sha, leaves) <= hashed
    ensures TruePath(sha, entry, m, leaves, proof)
    decreases |leaves|
  {
    hide *;
    if |leaves| == 1 {
      WalkOfOne(sha, hashed, entry, leaves, proof);
    } else {
      var k := Split(|leaves|);
      var left, right, start := leaves[..k], leaves[k..], HashLeaf(sha, entry);
      if m < k {
        TreeTurnsLeft(m, leaves, left, k);
        Descend(sha, hashed, leaves, k, TreeTurns(m, |left|), SiblingRight, proof, start, left, right);
        WalkIsPath(sha, hashed, entry, m, left, Front(proof));
        TruePathLeft(sha, entry, m, leaves, left, k, Front(proof));
      } else {
        TreeTurnsRight(m, leaves, right, k);
        Descend(sha, hashed, leaves, k, TreeTurns(m - k, |right|), SiblingLeft, proof, start, right, left);
        WalkIsPath(sha, hashed, entry, m - k, right, Front(proof));
        TruePathRight(sha, entry, m, leaves, right, k, Front(proof));
      }
    }
  }

  /** The strings an inclusion check hashes. */
  ghost function InclusionPreimages(sha: Sha, entry: Bytes, index: int, size: int, proof: seq<Digest>): set<Bytes> {
    {LeafPreimage(entry)}
    + if 0 <= index < size && |proof| == |InclusionTurns(index, size)|
      then WalkPreimages(sha, InclusionTurns(index, size), proof, HashLeaf(sha, entry)) else {}
  }

  /** No collision hypothesis is needed for an honest proof to be accepted. */
  lemma {:induction false} InclusionComplete(sha: Sha, leaves: seq<Bytes>, index: nat)
    requires index < |leaves|
    ensures InclusionAccepts(sha, leaves[index], index, |leaves|, Path(sha, index, leaves), Mth(sha, leaves))
  {
    TurnsAreTreeTurns(index, |leaves|);
    PathAccepted(sha, index, leaves);
  }

  lemma {:induction false} InclusionSound(sha: Sha, hashed: set<Bytes>, leaves: seq<Bytes>, entry: Bytes, index: int,
                                          proof: seq<Digest>)
    requires InclusionAccepts(sha, entry, index, |leaves|, proof, Mth(sha, leaves))
    requires CollisionFree(sha, hashed) && TreePreimages(sha, leaves) <= hashed
    requires InclusionPreimages(sha, entry, index, |leaves|, proof) <= hashed
    ensures 0 <= index < |leaves| && entry == leaves[index] && proof == Path(sha, index, leaves)
  {
    TurnsAreTreeTurns(index, |leaves|);
    assert LeafPreimage(entry) in InclusionPreimages(sha, entry, index, |leaves|, proof);
    WalkIsPath(sha, hashed, entry, index, leaves, proof);
  }

  /** Against the root of a list, inclusion is accepted exactly for the entry at that
      index with its own audit path, unless two of the hashed strings collide. */
  lemma {:induction false} InclusionExact(sha: Sha, leaves: seq<Bytes>, entry: Bytes, index: int, proof: seq<Digest>)
    requires CollisionFree(sha, TreePreimages(sha, leaves)
                                + InclusionPreimages(sha, entry, index, |leaves|, proof))
    ensures InclusionAccepts(sha, entry, index, |leaves|, proof, Mth(sha, leaves))
       <==> InclusionProof(sha, leaves, index) == Some(proof) && entry == leaves[index]
  {
    if InclusionAccepts(sha, entry, index, |leaves|, proof, Mth(sha, leaves)) {
      var hashed := TreePreimages(sha, leaves) + InclusionPreimages(sha, entry, index, |leaves|, proof);
      InclusionSound(sha, hashed, leaves, entry, index, proof);
    } else if 0 <= index < |leaves| {
      InclusionComplete(sha, leaves, index);
    }
  }

  // ---- consistency ----

  /** The left-to-right order of subproof: its own start, then the siblings. */
  function SubStart(sha: Sha, m: nat, leaves: seq<Bytes>): Digest
    requires 0 < m <= |leaves|
    decreases |leaves|
  {
    if m == |leaves| then Mth(sha, leaves)
    else
      var k := Split(|leaves|);
      if m <= k then SubStart(sha, m, leaves[..k]) else SubStart(sha, m - k, leaves[k..])
  }

  function Siblings(sha: Sha, m: nat, leaves: seq<Bytes>): seq<Digest>
    requires 0 < m <= |leaves|
    decreases |leaves|
  {
    if m == |leaves| then []
    else
      var k := Split(|leaves|);
      if m <= k then Siblings(sha, m, leaves[..k]) + [Mth(sha, leaves[k..])]
      else Siblings(sha, m - k, leaves[k..]) + [Mth(sha, leaves[..k])]
  }

  lemma SiblingsLeft(sha: Sha, m: nat, leaves: seq<Bytes>, left: seq<Bytes>, k: nat)
    requires 0 < m < |leaves| && k == Split(|leaves|) && m <= k && left == leaves[..k]
    ensures Siblings(sha, m, leaves) == Siblings(sha, m, left) + [Mth(sha, leaves[k..])]
    ensures SubStart(sha, m, leaves) == SubStart(sha, m, left)
  {
  }

  lemma SiblingsRight(sha: Sha, m: nat, leaves: seq<Bytes>, right: seq<Bytes>, k: nat)
    requires 0 < m < |leaves| && k == Split(|leaves|) && m > k && right == leaves[k..]
    ensures Siblings(sha, m, leaves) == Siblings(sha, m - k, right) + [Mth(sha, leaves[..k])]
    ensures SubStart(sha, m, leaves) == SubStart(sha, m - k, right)
  {
  }

  lemma {:induction false} SubproofSplits(sha: Sha, m: nat, leaves: seq<Bytes>)
    requires 0 < m <= |leaves|
    ensures Subproof(sha, m, leaves, false) == [SubStart(sha, m, leaves)] + Siblings(sha, m, leaves)
    decreases |leaves|
  {
    if m < |leaves| {
      var k := Split(|leaves|);
      if m <= k { SubproofSplits(sha, m, leaves[..k]); } else { SubproofSplits(sha, m - k, leaves[k..]); }
    }
  }

  /** Strictly between k and 2k there is no power of two. */
  lemma NoPow2Between(m: nat, k: nat)
    requires IsPow2(k) && k < m < 2 * k
    ensures !IsPow2(m)
  {
    if IsPow2(m) {
      SplitUnique(2 * k, k);
      SplitUnique(2 * k, m);
    }
  }

  /** The start is left out of the proof exactly when the old size is a power of two. */
  lemma {:induction false} SubproofStart(sha: Sha, m: nat, leaves: seq<Bytes>)
    requires 0 < m < |leaves| || (0 < m == |leaves| && IsPow2(m))
    ensures Subproof(sha, m, leaves, true)
         == if IsPow2(m) then Siblings(sha, m, leaves) else [SubStart(sha, m, leaves)] + Siblings(sha, m, leaves)
    decreases |leaves|
  {
    if m < |leaves| {
      var k := Split(|leaves|);
      SplitIsPow2(|leaves|);
      if m <= k {
        SubproofStart(sha, m, leaves[..k]);
      } else {
        NoPow2Between(m, k);
        SubproofSplits(sha, m - k, leaves[k..]);
      }
    }
  }

  /** The prefix of length m starts as its own subtree when m is a power of two. */
  lemma {:induction false} StartOfPow2(sha: Sha, m: nat, leaves: seq<Bytes>)
    requires 0 < m <= |leaves| && IsPow2(m)
    ensures SubStart(sha, m, leaves) == Mth(sha, leaves[..m])
    decreases |leaves|
  {
    if m == |leaves| {
      assert leaves[..m] == leaves;
    } else {
      var k := Split(|leaves|);
      SplitIsPow2(|leaves|);
      if m <= k {
        StartOfPow2(sha, m, leaves[..k]);
        assert leaves[..k][..m] == leaves[..m];
      } else {
        NoPow2Between(m, k);
      }
    }
  }

  /** Where the prefix of length m splits when it reaches past the left half. */
  lemma PrefixSplits(sha: Sha, m: nat, leaves: seq<Bytes>, k: nat)
    requires 1 < |leaves| && k == Split(|leaves|) && k < m <= |leaves|
    ensures Mth(sha, leaves[..m]) == HashNode(sha, Mth(sha, leaves[..k]), Mth(sha, leaves[k..][..m - k]))
  {
    SplitIsPow2(|leaves|);
    SplitUnique(m, k);
    assert leaves[..m][..k] == leaves[..k] && leaves[..m][k..] == leaves[k..][..m - k];
  }

  /** The walk `proof` from `start` reaches the roots of the list and of its m-prefix. */
  ghost predicate ReachesBoth(sha: Sha, m: nat, leaves: seq<Bytes>, proof: seq<Digest>, start: Digest) {
    && 0 < m <= |leaves|
    && |proof| == |SubTurns(m, |leaves|)|
    && FoldNew(sha, SubTurns(m, |leaves|), proof, start) == Mth(sha, leaves)
    && FoldOld(sha, SubTurns(m, |leaves|), proof, start) == Mth(sha, leaves[..m])
  }

  lemma ReachesFromLeft(sha: Sha, m: nat, leaves: seq<Bytes>, k: nat, proof: seq<Digest>, start: Digest)
    requires 0 < m < |leaves| && k == Split(|leaves|) && m <= k
    requires ReachesBoth(sha, m, leaves[..k], proof, start)
    ensures ReachesBoth(sha, m, leaves, proof + [Mth(sha, leaves[k..])], start)
  {
    FoldTop(sha, SubTurns(m, k), SiblingRight, proof, Mth(sha, leaves[k..]), start);
    assert leaves[..k][..m] == leaves[..m];
  }

  lemma ReachesFromRight(sha: Sha, m: nat, leaves: seq<Bytes>, right: seq<Bytes>, k: nat, proof: seq<Digest>,
                         start: Digest)
    requires 0 < m < |leaves| && k == Split(|leaves|) && m > k && right == leaves[k..]
    requires ReachesBoth(sha, m - k, right, proof, start)
    ensures ReachesBoth(sha, m, leaves, proof + [Mth(sha, leaves[..k])], start)
  {
    var turns, p := SubTurns(m - k, |right|), Mth(sha, leaves[..k]);
    SubTurnsRight(m, leaves, right, k);
    FoldTop(sha, turns, SiblingLeft, proof, p, start);
    PrefixSplits(sha, m, leaves, k);
    TreeTop(sha, leaves, k);
  }

  /** An honest walk reaches both roots. */
  lemma {:induction false} SiblingsAccepted(sha: Sha, m: nat, leaves: seq<Bytes>)
    requires 0 < m <= |leaves|
    ensures ReachesBoth(sha, m, leaves, Siblings(sha, m, leaves), SubStart(sha, m, leaves))
    decreases |leaves|
  {
    if m == |leaves| {
      assert leaves[..m] == leaves;
    } else {
      var k := Split(|leaves|);
      if m <= k {
        SiblingsAccepted(sha, m, leaves[..k]);
        ReachesFromLeft(sha, m, leaves, k, Siblings(sha, m, leaves[..k]), SubStart(sha, m, leaves[..k]));
      } else {
        SiblingsAccepted(sha, m - k, leaves[k..]);
        ReachesFromRight(sha, m, leaves, leaves[k..], k, Siblings(sha, m - k, leaves[k..]),
                         SubStart(sha, m - k, leaves[k..]));
      }
    }
  }

  lemma WalkOfWhole(sha: Sha, hashed: set<Bytes>, leaves: seq<Bytes>, proof: seq<Digest>, start: Digest)
    requires leaves != [] && Walk(sha, hashed, SubTurns(|leaves|, |leaves|), proof, start, Mth(sha, leaves))
    ensures proof == Siblings(sha, |leaves|, leaves) && start == SubStart(sha, |leaves|, leaves)
  {
  }

  /** A walk that reaches the new root is the honest one. */
  lemma {:induction false} WalkIsSiblings(sha: Sha, hashed: set<Bytes>, m: nat, leaves: seq<Bytes>,
                                          proof: seq<Digest>, start: Digest)
    requires 0 < m <= |leaves|
    requires Walk(sha, hashed, SubTurns(m, |leaves|), proof, start, Mth(sha, leaves))
    requires CollisionFree(sha, hashed) && TreePreimages(sha, leaves) <= hashed
    ensures proof == Siblings(sha, m, leaves) && start == SubStart(sha, m, leaves)
    decreases |leaves|
  {
    hide *;
    if m == |leaves| {
      WalkOfWhole(sha, hashed, leaves, proof, start);
    } else {
      var k := Split(|leaves|);
      var left, right := leaves[..k], leaves[k..];
      if m <= k {
        SubTurnsLeft(m, leaves, left, k);
        Descend(sha, hashed, leaves, k, SubTurns(m, |left|), SiblingRight, proof, start, left, right);
        WalkIsSiblings(sha, hashed, m, left, Front(proof), start);
        SiblingsLeft(sha, m, leaves, left, k);
      } else {
        SubTurnsRight(m, leaves, right, k);
        Descend(sha, hashed, leaves, k, SubTurns(m - k, |right|), SiblingLeft, proof, start, right, left);
        WalkIsSiblings(sha, hashed, m - k, right, Front(proof), start);
        SiblingsRight(sha, m, leaves, right, k);
      }
    }
  }

  /** The strings a consistency check hashes on the way to the new root. */
  ghost function ConsistencyPreimages(sha: Sha, oldSize: int, newSize: int, proof: seq<Digest>, oldRoot: Digest)
    : set<Bytes>
  {
    if 0 < oldSize < newSize then
      match ProofStart(oldSize, newSize, proof, oldRoot)
      case Some((start, rest)) =>
        if |rest| == |ConsistencyTurns(oldSize, newSize)|
        then WalkPreimages(sha, ConsistencyTurns(oldSize, newSize), rest, start) else {}
      case None => {}
    else {}
  }

  /** The verifier takes the old root itself as start exactly for powers of two. */
  lemma ProofStartCase(m: nat, n: nat, proof: seq<Digest>, oldRoot: Digest)
    requires 0 < m < n
    ensures ProofStart(m, n, proof, oldRoot)
         == if IsPow2(m) then Some((oldRoot, proof)) else if proof == [] then None else Some((proof[0], proof[1..]))
  {
    StartIsOldRoot(m, n);
  }

  /** How the generated proof presents its start to the verifier. */
  lemma ProofStartOfSubproof(sha: Sha, m: nat, leaves: seq<Bytes>)
    requires 0 < m < |leaves|
    ensures ProofStart(m, |leaves|, Subproof(sha, m, leaves, true), Mth(sha, leaves[..m]))
         == Some((SubStart(sha, m, leaves), Siblings(sha, m, leaves)))
  {
    var proof, root, start, rest :=
      Subproof(sha, m, leaves, true), Mth(sha, leaves[..m]), SubStart(sha, m, leaves), Siblings(sha, m, leaves);
    ProofStartCase(m, |leaves|, proof, root);
    SubproofStart(sha, m, leaves);
    if IsPow2(m) {
      StartOfPow2(sha, m, leaves);
    } else {
      assert proof == [start] + rest;
      assert proof[1..] == rest;
    }
  }

  /** ... and that presentation determines proof and old root. */
  lemma ProofStartInjective(m: nat, n: nat, p: seq<Digest>, r: Digest, p': seq<Digest>, r': Digest)
    requires 0 < m < n && ProofStart(m, n, p, r).Some?
    requires ProofStart(m, n, p, r) == ProofStart(m, n, p', r')
    ensures p == p'
  {
    ProofStartCase(m, n, p, r);
    ProofStartCase(m, n, p', r');
    if !IsPow2(m) {
      assert p == [p[0]] + p[1..] && p' == [p'[0]] + p'[1..];
    }
  }

  /** The honest proof is accepted for every list and every older size; no collision
      hypothesis is needed. */
  lemma {:induction false} ConsistencyComplete(sha: Sha, leaves: seq<Bytes>, m: nat)
    requires m <= |leaves| && leaves != []
    ensures ConsistencyAccepts(sha, m, |leaves|, ConsistencyProof(sha, leaves, m).value,
                               Mth(sha, leaves[..m]), Mth(sha, leaves))
  {
    if m == |leaves| {
      assert leaves[..m] == leaves;
    } else if m > 0 {
      TurnsAreSubTurns(m, |leaves|);
      ProofStartOfSubproof(sha, m, leaves);
      SiblingsAccepted(sha, m, leaves);
    }
  }

  lemma ConsistencySoundMiddle(sha: Sha, hashed: set<Bytes>, leaves: seq<Bytes>, m: nat, proof: seq<Digest>,
                               oldRoot: Digest)
    requires 0 < m < |leaves| && ConsistencyAccepts(sha, m, |leaves|, proof, oldRoot, Mth(sha, leaves))
    requires CollisionFree(sha, hashed) && TreePreimages(sha, leaves) <= hashed
    requires ConsistencyPreimages(sha, m, |leaves|, proof, oldRoot) <= hashed
    ensures oldRoot == Mth(sha, leaves[..m]) && proof == Subproof(sha, m, leaves, true)
  {
    TurnsAreSubTurns(m, |leaves|);
    var (start, rest) := ProofStart(m, |leaves|, proof, oldRoot).value;
    WalkIsSiblings(sha, hashed, m, leaves, rest, start);
    SiblingsAccepted(sha, m, leaves);
    ProofStartOfSubproof(sha, m, leaves);
    ProofStartInjective(m, |leaves|, proof, oldRoot, Subproof(sha, m, leaves, true), Mth(sha, leaves[..m]));
  }

  lemma WholePrefix(sha: Sha, leaves: seq<Bytes>)
    ensures Mth(sha, leaves[..|leaves|]) == Mth(sha, leaves)
  {
    assert leaves[..|leaves|] == leaves;
  }

  lemma EdgeSizes(sha: Sha, oldSize: int, newSize: int, proof: seq<Digest>, oldRoot: Digest, newRoot: Digest)
    requires ConsistencyAccepts(sha, oldSize, newSize, proof, oldRoot, newRoot)
    ensures 0 <= oldSize <= newSize && newSize > 0
    ensures oldSize == newSize ==> proof == [] && oldRoot == newRoot
    ensures oldSize == 0 ==> proof == [] && oldRoot == sha([])
  {
  }

  /** Soundness: an accepted check against the root of a list proves that the old root is
      the tree hash of that list's first m entries, and that the proof is the honest one. */
  lemma {:induction false} ConsistencySound(sha: Sha, hashed: set<Bytes>, leaves: seq<Bytes>, oldSize: int,
                                            proof: seq<Digest>, oldRoot: Digest)
    requires ConsistencyAccepts(sha, oldSize, |leaves|, proof, oldRoot, Mth(sha, leaves))
    requires CollisionFree(sha, hashed) && TreePreimages(sha, leaves) <= hashed
    requires ConsistencyPreimages(sha, oldSize, |leaves|, proof, oldRoot) <= hashed
    ensures 0 <= oldSize <= |leaves|
    ensures oldRoot == Mth(sha, leaves[..oldSize]) && ConsistencyProof(sha, leaves, oldSize) == Some(proof)
  {
    EdgeSizes(sha, oldSize, |leaves|, proof, oldRoot, Mth(sha, leaves));
    if oldSize == |leaves| {
      WholePrefix(sha, leaves);
    } else if oldSize > 0 {
      ConsistencySoundMiddle(sha, hashed, leaves, oldSize, proof, oldRoot);
    }
  }

  /** Both directions: accepted exactly for the true prefix root with the generated proof. */
  lemma {:induction false} ConsistencyExact(sha: Sha, leaves: seq<Bytes>, oldSize: int, proof: seq<Digest>,
                                            oldRoot: Digest)
    requires leaves != []
    requires CollisionFree(sha, TreePreimages(sha, leaves)
                                + ConsistencyPreimages(sha, oldSize, |leaves|, proof, oldRoot))
    ensures ConsistencyAccepts(sha, oldSize, |leaves|, proof, oldRoot, Mth(sha, leaves))
       <==> ConsistencyProof(sha, leaves, oldSize) == Some(proof) && oldRoot == Mth(sha, leaves[..oldSize])
  {
    if ConsistencyAccepts(sha, oldSize, |leaves|, proof, oldRoot, Mth(sha, leaves)) {
      ConsistencySound(sha, TreePreimages(sha, leaves) + ConsistencyPreimages(sha, oldSize, |leaves|, proof, oldRoot),
                       leaves, oldSize, proof, oldRoot);
    } else if 0 <= oldSize <= |leaves| {
      ConsistencyComplete(sha, leaves, oldSize);
    }
  }
}
