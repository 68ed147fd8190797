/** The RFC 6962 tree: hashing, audit paths and consistency proofs, all generated
    top-down by splitting at the largest power of two below the size. */
module MerkleTree {
  import opened Basics

  /** The log's entries, the one mutable object of this part. */
  class MerkleLog {
    var Leaves: seq<Bytes>

    constructor ()
      ensures Leaves == []
    {
      Leaves := [];
    }

    method Add(entry: Bytes) returns (index: nat)
      modifies this
      ensures Leaves == old(Leaves) + [entry]
      ensures index == |old(Leaves)| && Leaves[index] == entry
    {
      Leaves := Leaves + [entry];
      index := |Leaves| - 1;
    }
  }

  predicate IsPow2(k: nat) {
    k == 1 || (k > 1 && k % 2 == 0 && IsPow2(k / 2))
  }

  /** Where a tree of n > 1 leaves splits. */
  function Split(n: nat): (k: nat)
    requires n > 1
    ensures 0 < k < n <= 2 * k
  {
    if n == 2 then 1 else 2 * Split((n + 1) / 2)
  }

  lemma {:induction false} SplitIsPow2(n: nat)
    requires n > 1
    ensures IsPow2(Split(n))
  {
    if n > 2 { SplitIsPow2((n + 1) / 2); }
  }

  /** Only one power of two lies in [n/2, n). */
  lemma {:induction false} SplitUnique(n: nat, k: nat)
    requires n > 1 && IsPow2(k) && k < n <= 2 * k
    ensures k == Split(n)
  {
    if n == 2 {
    } else {
      SplitUnique((n + 1) / 2, k / 2);
    }
  }

  method LargestPow2Below(n: nat) returns (k: nat)
    requires n > 1
    ensures k == Split(n)
  {
    k := 1;
    while 2 * k < n
      invariant IsPow2(k) && k < n
      decreases n - k
    {
      k := 2 * k;
    }
    SplitUnique(n, k);
  }

  function LeafPreimage(entry: Bytes): Bytes {
    [0] + entry
  }

  function NodePreimage(l: Digest, r: Digest): Bytes {
    [1] + l + r
  }

  function HashLeaf(sha: Sha, entry: Bytes): Digest {
    sha(LeafPreimage(entry))
  }

  function HashNode(sha: Sha, l: Digest, r: Digest): Digest {
    sha(NodePreimage(l, r))
  }

  /** Merkle Tree Hash. */
  function Mth(sha: Sha, leaves: seq<Bytes>): Digest
    decreases |leaves|
  {
    if |leaves| == 0 then sha([])
    else if |leaves| == 1 then HashLeaf(sha, leaves[0])
    else
      var k := Split(|leaves|);
      HashNode(sha, Mth(sha, leaves[..k]), Mth(sha, leaves[k..]))
  }

  /** Every string hashed while computing Mth. */
  ghost function TreePreimages(sha: Sha, leaves: seq<Bytes>): set<Bytes>
    decreases |leaves|
  {
    if |leaves| == 0 then {[]}
    else if |leaves| == 1 then {LeafPreimage(leaves[0])}
    else
      var k := Split(|leaves|);
      {NodePreimage(Mth(sha, leaves[..k]), Mth(sha, leaves[k..]))}
      + TreePreimages(sha, leaves[..k]) + TreePreimages(sha, leaves[k..])
  }

  /** Inclusion audit path of leaf m. */
  function Path(sha: Sha, m: nat, leaves: seq<Bytes>): seq<Digest>
    requires m < |leaves|
    decreases |leaves|
  {
    if |leaves| == 1 then []
    else
      var k := Split(|leaves|);
      if m < k then Path(sha, m, leaves[..k]) + [Mth(sha, leaves[k..])]
      else Path(sha, m - k, leaves[k..]) + [Mth(sha, leaves[..k])]
  }

  function InclusionProof(sha: Sha, leaves: seq<Bytes>, index: int): Option<seq<Digest>> {
    if index < 0 || index >= |leaves| then None else Some(Path(sha, index, leaves))
  }

  function Subproof(sha: Sha, m: nat, leaves: seq<Bytes>, b: bool): seq<Digest>
    requires 0 < m <= |leaves|
    decreases |leaves|
  {
    if m == |leaves| then
      if b then [] else [Mth(sha, leaves)]
    else
      var k := Split(|leaves|);
      if m <= k then Subproof(sha, m, leaves[..k], b) + [Mth(sha, leaves[k..])]
      else Subproof(sha, m - k, leaves[k..], false) + [Mth(sha, leaves[..k])]
  }

  function ConsistencyProof(sha: Sha, leaves: seq<Bytes>, oldSize: int): Option<seq<Digest>> {
    if oldSize < 0 || oldSize > |leaves| then None
    else if oldSize == 0 || oldSize == |leaves| then Some([])
    else Some(Subproof(sha, oldSize, leaves, true))
  }

  /** Leaf, node and empty strings never coincide, and a node string determines its children. */
  lemma PreimagesApart(e: Bytes, e': Bytes, l: Digest, r: Digest, l': Digest, r': Digest)
    ensures LeafPreimage(e) != NodePreimage(l, r) && LeafPreimage(e) != [] && NodePreimage(l, r) != []
    ensures LeafPreimage(e) == LeafPreimage(e') ==> e == e'
    ensures NodePreimage(l, r) == NodePreimage(l', r') ==> l == l' && r == r'
  {
    assert LeafPreimage(e)[0] == 0 && NodePreimage(l, r)[0] == 1;
    assert LeafPreimage(e)[1..] == e && LeafPreimage(e')[1..] == e';
    assert NodePreimage(l, r)[1..33] == l && NodePreimage(l', r')[1..33] == l';
    assert NodePreimage(l, r)[33..] == r && NodePreimage(l', r')[33..] == r';
  }
}
