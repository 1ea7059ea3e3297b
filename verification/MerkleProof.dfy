/** Inclusion proofs: what a proof computes, which proofs verify, and why only the true leaf has one. */
module MerkleProof {
  import opened Prelude
  import opened MerkleTree

  function SiblingPos(pos: nat): nat {
    if pos % 2 == 1 then pos - 1 else pos + 1
  }

  /** The siblings along the path of an index, from the leaf up. */
  function Siblings(h: Hasher, leaves: seq<Hash>, index: nat, height: nat): (r: seq<Hash>)
    ensures |r| == height
    ensures forall level {:trigger r[level]} :: 0 <= level < height ==>
              r[level] == SiblingAt(h, leaves, index, level)
  {
    seq(height, level requires 0 <= level < height => SiblingAt(h, leaves, index, level))
  }

  /** The node a proof leads to at a level. */
  function Climb(h: Hasher, leaf: Hash, proof: seq<Hash>, index: nat, level: nat): Hash
    requires level <= |proof|
  {
    if level == 0 then leaf
    else
      var below := Climb(h, leaf, proof, index, level - 1);
      if Bit(index, level - 1) then h(proof[level - 1], below) else h(below, proof[level - 1])
  }

  /** The node of the path of an index at a level. */
  function OnPath(h: Hasher, leaves: seq<Hash>, index: nat, level: nat): Hash {
    Node(h, leaves, level, Shift(index, level))
  }

  function SiblingAt(h: Hasher, leaves: seq<Hash>, index: nat, level: nat): Hash {
    Node(h, leaves, level, SiblingPos(Shift(index, level)))
  }

  /** A node on the path and its sibling make the node above. */
  lemma ClimbOne(h: Hasher, leaves: seq<Hash>, index: nat, level: nat)
    ensures var node, sibling := OnPath(h, leaves, index, level), SiblingAt(h, leaves, index, level);
            OnPath(h, leaves, index, level + 1) == if Bit(index, level) then h(sibling, node) else h(node, sibling)
  {
    NodeParent(h, leaves, level, Shift(index, level));
  }

  lemma StepUp(h: Hasher, leaves: seq<Hash>, leaf: Hash, proof: seq<Hash>, index: nat, level: nat)
    requires level < |proof| && proof[level] == SiblingAt(h, leaves, index, level)
    requires Climb(h, leaf, proof, index, level) == OnPath(h, leaves, index, level)
    ensures Climb(h, leaf, proof, index, level + 1) == OnPath(h, leaves, index, level + 1)
  {
    ClimbOne(h, leaves, index, level);
  }

  /** A proof that leads to the right node came from the right node with the right sibling. */
  lemma StepBack(h: Hasher, leaves: seq<Hash>, leaf: Hash, proof: seq<Hash>, index: nat, level: nat)
    requires Injective(h) && level < |proof|
    requires Climb(h, leaf, proof, index, level + 1) == OnPath(h, leaves, index, level + 1)
    ensures Climb(h, leaf, proof, index, level) == OnPath(h, leaves, index, level)
    ensures proof[level] == SiblingAt(h, leaves, index, level)
  {
    ClimbOne(h, leaves, index, level);
    var below, node, sibling :=
      Climb(h, leaf, proof, index, level), OnPath(h, leaves, index, level), SiblingAt(h, leaves, index, level);
    if Bit(index, level) {
      SamePreimage(h, proof[level], below, sibling, node);
    } else {
      SamePreimage(h, below, proof[level], node, sibling);
    }
  }

  lemma {:induction false} SiblingsClimbToNode(h: Hasher, leaves: seq<Hash>, proof: seq<Hash>, index: nat, level: nat)
    requires level <= |proof|
    requires forall i {:trigger proof[i]} :: 0 <= i < |proof| ==> proof[i] == SiblingAt(h, leaves, index, i)
    ensures Climb(h, LeafAt(leaves, index), proof, index, level) == OnPath(h, leaves, index, level)
  {
    if level > 0 {
      SiblingsClimbToNode(h, leaves, proof, index, level - 1);
      StepUp(h, leaves, LeafAt(leaves, index), proof, index, level - 1);
    }
  }

  lemma {:induction false} ClimbIsBinding(
    h: Hasher, leaves: seq<Hash>, leaf: Hash, proof: seq<Hash>, index: nat, level: nat)
    requires Injective(h) && level <= |proof|
    requires Climb(h, leaf, proof, index, level) == OnPath(h, leaves, index, level)
    ensures leaf == LeafAt(leaves, index)
    ensures forall i {:trigger proof[i]} :: 0 <= i < level ==> proof[i] == SiblingAt(h, leaves, index, i)
  {
    if level > 0 {
      StepBack(h, leaves, leaf, proof, index, level - 1);
      ClimbIsBinding(h, leaves, leaf, proof, index, level - 1);
    }
  }

  /** A proof of full height verifies exactly for the leaf at its index, and only with the siblings of its path. */
  lemma ProofIsExact(h: Hasher, leaves: seq<Hash>, leaf: Hash, proof: seq<Hash>, index: nat)
    requires Injective(h) && index < Pow2(|proof|)
    ensures Climb(h, leaf, proof, index, |proof|) == Root(h, leaves, |proof|)
            <==> leaf == LeafAt(leaves, index) && proof == Siblings(h, leaves, index, |proof|)
  {
    ShiftToRoot(index, |proof|);
    SiblingsClimbToNode(h, leaves, Siblings(h, leaves, index, |proof|), index, |proof|);
    if Climb(h, leaf, proof, index, |proof|) == Root(h, leaves, |proof|) {
      ClimbIsBinding(h, leaves, leaf, proof, index, |proof|);
      assert proof == Siblings(h, leaves, index, |proof|);
    }
  }

  /** CalculateRoot, going up one level at a time. */
  method CalculateRoot(h: Hasher, leaf: Hash, proof: seq<Hash>, index: nat) returns (node: Hash)
    ensures node == Climb(h, leaf, proof, index, |proof|)
  {
    node := leaf;
    var shifted := index;
    for level := 0 to |proof|
      invariant shifted == Shift(index, level) && node == Climb(h, leaf, proof, index, level)
    {
      if shifted % 2 == 1 {
        node := h(proof[level], node);
      } else {
        node := h(node, proof[level]);
      }
      shifted := shifted / 2;
    }
  }

  /** Any root may be expected; for one that commits to leaves, only the true leaf with its true siblings is accepted. */
  method VerifyProof(h: Hasher, leaf: Hash, proof: seq<Hash>, index: nat, root: Hash) returns (ok: bool)
    ensures ok <==> Climb(h, leaf, proof, index, |proof|) == root
    ensures Injective(h) && index < Pow2(|proof|) ==>
              forall leaves :: Root(h, leaves, |proof|) == root ==>
                (ok <==> leaf == LeafAt(leaves, index) && proof == Siblings(h, leaves, index, |proof|))
  {
    var calculated := CalculateRoot(h, leaf, proof, index);
    ok := calculated == root;
    if Injective(h) && index < Pow2(|proof|) {
      forall leaves | Root(h, leaves, |proof|) == root
        ensures ok <==> leaf == LeafAt(leaves, index) && proof == Siblings(h, leaves, index, |proof|)
      {
        ProofIsExact(h, leaves, leaf, proof, index);
      }
    }
  }
}
