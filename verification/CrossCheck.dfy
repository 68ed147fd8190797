/** Comparing our view with a peer witness's checkpoint, and exactly when the comparison
    raises an alarm although nobody forked. */
module CrossCheck {
  import opened Basics
  import opened MerkleTree
  import opened MerkleVerify
  import opened MerkleGrowth

  datatype Verdict = Agrees | Equivocates | Inconclusive

  datatype Seen = Seen(size: int, root: Digest)

  function Compare(sha: Sha, ours: Option<Seen>, peer: Seen, proof: Option<seq<Digest>>): Verdict {
    if ours.None? then Inconclusive
    else if peer.size == ours.value.size then
      if peer.root == ours.value.root then Agrees else Equivocates
    else if peer.size > ours.value.size then
      if proof.None? then Inconclusive
      else if ConsistencyAccepts(sha, ours.value.size, peer.size, proof.value, ours.value.root, peer.root) then Agrees
      else Equivocates
    else Inconclusive
  }

  /** The strings whose digests the comparison relies on. */
  ghost function ComparePreimages(sha: Sha, ours: Seen, peer: Seen, proof: Option<seq<Digest>>): set<Bytes> {
    if proof.Some? then ConsistencyPreimages(sha, ours.size, peer.size, proof.value, ours.root) else {}
  }

  /** Agreement is worth something: once the peer's root is opened, ours is a prefix of it. */
  lemma {:induction false} AgreementIsPrefix(sha: Sha, ours: Seen, peer: Seen, proof: Option<seq<Digest>>,
                                             leaves: seq<Bytes>)
    requires CollisionFree(sha, TreePreimages(sha, leaves) + ComparePreimages(sha, ours, peer, proof))
    requires peer == Seen(|leaves|, Mth(sha, leaves))
    requires Compare(sha, Some(ours), peer, proof) == Agrees
    ensures 0 <= ours.size <= |leaves| && ours.root == Mth(sha, leaves[..ours.size])
  {
    hide ConsistencyAccepts, Mth, TreePreimages, CollisionFree;
    if ours.size == peer.size {
      WholePrefix(sha, leaves);
    } else {
      ConsistencySound(sha, TreePreimages(sha, leaves) + ComparePreimages(sha, ours, peer, proof),
                       leaves, ours.size, proof.value, ours.root);
    }
  }

  /** With the right proof the alarm is exact: it is raised if and only if our root is not that of
      the list's prefix. */
  lemma {:induction false} AlarmExactlyOnFork(sha: Sha, leaves: seq<Bytes>, ours: Seen)
    requires leaves != [] && 0 <= ours.size <= |leaves|
    requires CollisionFree(sha, TreePreimages(sha, leaves)
                                + ComparePreimages(sha, ours, Seen(|leaves|, Mth(sha, leaves)),
                                                   ConsistencyProof(sha, leaves, ours.size)))
    ensures Compare(sha, Some(ours), Seen(|leaves|, Mth(sha, leaves)), ConsistencyProof(sha, leaves, ours.size)) ==
            Equivocates
       <==> ours.root != Mth(sha, leaves[..ours.size])
  {
    hide ConsistencyAccepts, Mth, TreePreimages, CollisionFree, Subproof;
    WholePrefix(sha, leaves);
    if ours.size < |leaves| {
      ConsistencyExact(sha, leaves, ours.size, ConsistencyProof(sha, leaves, ours.size).value, ours.root);
    }
  }

  /** The alarm alone is no evidence of a fork. When both views are honest views of one list, it
      is raised exactly when the peer is ahead and the log served a proof other than the one for
      the peer's size. */
  lemma {:induction false} AlarmOnOtherProof(sha: Sha, leaves: seq<Bytes>, m: nat, proof: Option<seq<Digest>>)
    requires leaves != [] && m <= |leaves|
    requires CollisionFree(sha, TreePreimages(sha, leaves)
                                + ComparePreimages(sha, Seen(m, Mth(sha, leaves[..m])),
                                                   Seen(|leaves|, Mth(sha, leaves)), proof))
    ensures Compare(sha, Some(Seen(m, Mth(sha, leaves[..m]))), Seen(|leaves|, Mth(sha, leaves)), proof) == Equivocates
       <==> m < |leaves| && proof.Some? && proof != ConsistencyProof(sha, leaves, m)
  {
    hide ConsistencyAccepts, Mth, TreePreimages, ConsistencyPreimages, CollisionFree, ConsistencyProof;
    WholePrefix(sha, leaves);
    if proof.Some? {
      var p := proof.value;
      AheadExactly(sha, leaves, m, p);
    }
  }

  /** Honest views of any two sizes of one list, ours of size m and the peer's of size n: the alarm
      is raised exactly when the peer is ahead and the proof is another one than that from m to n.
      Against a peer of our size or behind us nothing is ever raised. */
  lemma {:induction false} AnySizesAlarm(sha: Sha, leaves: seq<Bytes>, m: nat, n: nat, proof: Option<seq<Digest>>)
    requires m <= |leaves| && n <= |leaves|
    requires CollisionFree(sha, TreePreimages(sha, leaves[..n])
                                + ComparePreimages(sha, Seen(m, Mth(sha, leaves[..m])),
                                                   Seen(n, Mth(sha, leaves[..n])), proof))
    ensures Compare(sha, Some(Seen(m, Mth(sha, leaves[..m]))), Seen(n, Mth(sha, leaves[..n])), proof) == Equivocates
       <==> m < n && proof.Some? && proof != ConsistencyProof(sha, leaves[..n], m)
  {
    hide ConsistencyAccepts, Mth, TreePreimages, ComparePreimages, CollisionFree, ConsistencyProof;
    if m <= n && n > 0 {
      assert leaves[..n][..m] == leaves[..m];
      AlarmOnOtherProof(sha, leaves[..n], m, proof);
    }
  }

  /** The code asks the log for a proof to its current size, whatever the peer's size is. So an
      honest log that has grown past the peer's checkpoint raises the alarm: for honest views of
      sizes m <= n of one list the verdict is an alarm exactly when 0 < m < n and the log is
      longer than n, and agreement otherwise. */
  lemma {:induction false} FalseAlarmExactly(sha: Sha, grown: seq<Bytes>, m: nat, n: nat)
    requires m <= n <= |grown| && CollisionFree(sha, GrownPreimages(sha, grown, m, n))
    ensures Compare(sha, Some(Seen(m, Mth(sha, grown[..m]))), Seen(n, Mth(sha, grown[..n])),
                    ConsistencyProof(sha, grown, m))
         == if 0 < m < n < |grown| then Equivocates else Agrees
  {
    hide ConsistencyAccepts, GrownPreimages, Mth, Subproof, CollisionFree;
    if m < n { GrownProofAccepted(sha, grown, m, n); }
  }

  lemma AheadExactly(sha: Sha, leaves: seq<Bytes>, m: nat, p: seq<Digest>)
    requires leaves != [] && m <= |leaves|
    requires CollisionFree(sha, TreePreimages(sha, leaves)
                                + ConsistencyPreimages(sha, m, |leaves|, p, Mth(sha, leaves[..m])))
    ensures ConsistencyAccepts(sha, m, |leaves|, p, Mth(sha, leaves[..m]), Mth(sha, leaves))
       <==> ConsistencyProof(sha, leaves, m) == Some(p)
  {
    hide ConsistencyAccepts, Mth, TreePreimages, ConsistencyPreimages, CollisionFree, ConsistencyProof;
    ConsistencyExact(sha, leaves, m, p, Mth(sha, leaves[..m]));
  }
}
