/** Proofs of a log that has grown meanwhile: up to a collision a root belongs to one list, and
    the consistency proof from a given old size is different for every new size. */
module MerkleGrowth {
  import opened Basics
  import opened MerkleTree
  import opened MerkleTurns
  import opened MerkleVerify

  /** The string whose digest the root is. */
  ghost function TopPreimage(sha: Sha, leaves: seq<Bytes>): Bytes {
    if |leaves| == 0 then []
    else if |leaves| == 1 then LeafPreimage(leaves[0])
    else NodePreimage(Mth(sha, leaves[..Split(|leaves|)]), Mth(sha, leaves[Split(|leaves|)..]))
  }

  lemma TopIsHashed(sha: Sha, leaves: seq<Bytes>)
    ensures Mth(sha, leaves) == sha(TopPreimage(sha, leaves)) && TopPreimage(sha, leaves) in TreePreimages(sha, leaves)
  {
  }

  /** Equal top strings come from lists of one kind with equal parts. */
  lemma TopsEqual(sha: Sha, a: seq<Bytes>, b: seq<Bytes>)
    requires TopPreimage(sha, a) == TopPreimage(sha, b)
    ensures |a| == 0 <==> |b| == 0
    ensures |a| == 1 <==> |b| == 1
    ensures |a| == 1 ==> a[0] == b[0]
    ensures |a| > 1 ==> && Mth(sha, a[..Split(|a|)]) == Mth(sha, b[..Split(|b|)])
                        && Mth(sha, a[Split(|a|)..]) == Mth(sha, b[Split(|b|)..])
  {
    hide Mth, LeafPreimage, NodePreimage;
    var (l, r) := if |a| > 1 then (Mth(sha, a[..Split(|a|)]), Mth(sha, a[Split(|a|)..])) else (sha([]), sha([]));
    var (l', r') := if |b| > 1 then (Mth(sha, b[..Split(|b|)]), Mth(sha, b[Split(|b|)..])) else (sha([]), sha([]));
    var e, e' := if |a| == 1 then a[0] else [], if |b| == 1 then b[0] else [];
    PreimagesApart(e, e', l, r, l', r');
    PreimagesApart(e', e, l', r', l, r);
    PreimagesApart(e, e', l', r', l, r);
    PreimagesApart(e', e, l, r, l', r');
  }

  lemma SameHash(sha: Sha, hashed: set<Bytes>, x: Bytes, y: Bytes)
    requires CollisionFree(sha, hashed) && x in hashed && y in hashed && sha(x) == sha(y)
    ensures x == y
  {
    assert Hashed(x, hashed) && Hashed(y, hashed);
  }

  lemma Rejoin(a: seq<Bytes>, k: nat, b: seq<Bytes>, k': nat)
    requires k <= |a| && k' <= |b| && a[..k] == b[..k'] && a[k..] == b[k'..]
    ensures a == b
  {
    assert a == a[..k] + a[k..] && b == b[..k'] + b[k'..];
  }

  /** Two lists with one root are one list, unless two of the hashed strings collide. */
  lemma {:induction false} RootDeterminesList(sha: Sha, hashed: set<Bytes>, a: seq<Bytes>, b: seq<Bytes>)
    requires CollisionFree(sha, hashed) && TreePreimages(sha, a) <= hashed && TreePreimages(sha, b) <= hashed
    requires Mth(sha, a) == Mth(sha, b)
    ensures a == b
    decreases |a|
  {
    hide CollisionFree, Mth, TreePreimages, TopPreimage;
    TopIsHashed(sha, a);
    TopIsHashed(sha, b);
    SameHash(sha, hashed, TopPreimage(sha, a), TopPreimage(sha, b));
    TopsEqual(sha, a, b);
    if |a| > 1 {
      var k, k' := Split(|a|), Split(|b|);
      TreeTop(sha, a, k);
      TreeTop(sha, b, k');
      RootDeterminesList(sha, hashed, a[..k], b[..k']);
      RootDeterminesList(sha, hashed, a[k..], b[k'..]);
      Rejoin(a, k, b, k');
    } else if |a| == 1 {
      assert a == [a[0]] && b == [b[0]];
    }
  }

  /** A smaller size either lies within the left half or splits at the same point. */
  lemma SplitOfSmaller(n: nat, size: nat)
    requires 1 < n < size
    ensures n > Split(size) ==> Split(n) == Split(size)
  {
    if n > Split(size) {
      SplitIsPow2(size);
      SplitUnique(n, Split(size));
    }
  }

  lemma {:induction false} TurnsGrow(m: nat, n: nat, size: nat)
    requires 0 < m <= n <= size
    ensures |SubTurns(m, n)| <= |SubTurns(m, size)|
    decreases size
  {
    if m < n < size {
      var k := Split(size);
      SplitOfSmaller(n, size);
      if n <= k {
        TurnsGrow(m, n, k);
      } else if m > k {
        TurnsGrow(m - k, n - k, size - k);
      }
    }
  }

  lemma SiblingsLength(sha: Sha, m: nat, leaves: seq<Bytes>)
    requires 0 < m <= |leaves|
    ensures |Siblings(sha, m, leaves)| == |SubTurns(m, |leaves|)|
  {
    SiblingsAccepted(sha, m, leaves);
  }

  lemma LastDiffers(x: seq<Digest>, a: Digest, y: seq<Digest>, b: Digest)
    ensures x + [a] == y + [b] ==> x == y && a == b
  {
    if x + [a] == y + [b] {
      assert Front(x + [a]) == x && Front(y + [b]) == y;
      assert Last(x + [a]) == a && Last(y + [b]) == b;
    }
  }

  lemma FirstDiffers(a: Digest, x: seq<Digest>, b: Digest, y: seq<Digest>)
    ensures [a] + x == [b] + y ==> x == y
  {
    if [a] + x == [b] + y {
      assert ([a] + x)[1..] == x && ([b] + y)[1..] == y;
    }
  }

  /** The siblings from one old size are different for a prefix and for the longer list. */
  lemma {:induction false} SiblingsDiffer(sha: Sha, hashed: set<Bytes>, m: nat, n: nat, leaves: seq<Bytes>)
    requires 0 < m < n < |leaves|
    requires CollisionFree(sha, hashed) && TreePreimages(sha, leaves) <= hashed &&
             TreePreimages(sha, leaves[..n]) <= hashed
    ensures Siblings(sha, m, leaves[..n]) != Siblings(sha, m, leaves)
    decreases |leaves|
  {
    hide CollisionFree, Mth, TreePreimages, Siblings, SubStart, SubTurns;
    var k, a := Split(|leaves|), leaves[..n];
    SplitOfSmaller(n, |leaves|);
    if n <= k {
      SiblingsLength(sha, m, a);
      SiblingsLength(sha, m, leaves[..k]);
      TurnsGrow(m, n, k);
      SiblingsLeft(sha, m, leaves, leaves[..k], k);
    } else {
      TreeTop(sha, leaves, k);
      TreeTop(sha, a, k);
      assert a[..k] == leaves[..k] && a[k..] == leaves[k..][..n - k];
      if m <= k {
        SiblingsLeft(sha, m, leaves, leaves[..k], k);
        SiblingsLeft(sha, m, a, a[..k], k);
        LastDiffers(Siblings(sha, m, a[..k]), Mth(sha, a[k..]), Siblings(sha, m, leaves[..k]), Mth(sha, leaves[k..]));
        if Mth(sha, a[k..]) == Mth(sha, leaves[k..]) { RootDeterminesList(sha, hashed, a[k..], leaves[k..]); }
      } else {
        SiblingsRight(sha, m, leaves, leaves[k..], k);
        SiblingsRight(sha, m, a, a[k..], k);
        SiblingsDiffer(sha, hashed, m - k, n - k, leaves[k..]);
        LastDiffers(Siblings(sha, m - k, a[k..]), Mth(sha, a[..k]), Siblings(sha, m - k, leaves[k..]),
                    Mth(sha, leaves[..k]));
      }
    }
  }

  /** So is the proof the log serves. */
  lemma {:induction false} GrownProofDiffers(sha: Sha, hashed: set<Bytes>, m: nat, n: nat, leaves: seq<Bytes>)
    requires 0 < m < n < |leaves|
    requires CollisionFree(sha, hashed) && TreePreimages(sha, leaves) <= hashed &&
             TreePreimages(sha, leaves[..n]) <= hashed
    ensures ConsistencyProof(sha, leaves, m) != ConsistencyProof(sha, leaves[..n], m)
  {
    hide CollisionFree, Mth, TreePreimages, Siblings, SubStart, Subproof;
    SiblingsDiffer(sha, hashed, m, n, leaves);
    SubproofStart(sha, m, leaves);
    SubproofStart(sha, m, leaves[..n]);
    FirstDiffers(SubStart(sha, m, leaves), Siblings(sha, m, leaves),
                 SubStart(sha, m, leaves[..n]), Siblings(sha, m, leaves[..n]));
  }

  lemma FewerPreimages(sha: Sha, more: set<Bytes>, fewer: set<Bytes>)
    requires CollisionFree(sha, more) && fewer <= more
    ensures CollisionFree(sha, fewer)
  {
    forall x, y | Hashed(x, fewer) && Hashed(y, fewer) && sha(x) == sha(y) ensures x == y {
      assert Hashed(x, more) && Hashed(y, more);
    }
  }

  /** The strings hashed when the proof to a grown list is checked against its n-prefix. */
  ghost function GrownPreimages(sha: Sha, grown: seq<Bytes>, m: nat, n: nat): set<Bytes>
    requires m <= n <= |grown|
  {
    TreePreimages(sha, grown) + TreePreimages(sha, grown[..n])
    + ConsistencyPreimages(sha, m, n, ConsistencyProof(sha, grown, m).value, Mth(sha, grown[..m]))
  }

  /** Checked against an n-prefix, the proof to the grown list is accepted exactly when nothing
      was to be proved or the list has not grown. */
  lemma {:induction false} GrownProofAccepted(sha: Sha, grown: seq<Bytes>, m: nat, n: nat)
    requires m < n <= |grown| && CollisionFree(sha, GrownPreimages(sha, grown, m, n))
    ensures ConsistencyAccepts(sha, m, n, ConsistencyProof(sha, grown, m).value,
                               Mth(sha, grown[..m]), Mth(sha, grown[..n]))
       <==> m == 0 || n == |grown|
  {
    hide ConsistencyAccepts, ConsistencyPreimages, Mth, TreePreimages, Subproof, CollisionFree;
    var leaves, proof := grown[..n], ConsistencyProof(sha, grown, m).value;
    assert leaves[..m] == grown[..m];
    FewerPreimages(sha, GrownPreimages(sha, grown, m, n),
                   TreePreimages(sha, leaves) + ConsistencyPreimages(sha, m, n, proof, Mth(sha, leaves[..m])));
    ConsistencyExact(sha, leaves, m, proof, Mth(sha, leaves[..m]));
    if 0 < m && n < |grown| {
      GrownProofDiffers(sha, GrownPreimages(sha, grown, m, n), m, n, grown);
    } else if n == |grown| {
      assert leaves == grown;
    }
  }
}
