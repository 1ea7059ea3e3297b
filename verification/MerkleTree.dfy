/**
 The exit tree as a value: a complete binary tree over the leaves, padded with
 zeros, whose nodes hash their two children. Positions are counted per level, so
 the leaf at index i lies under position i >> level. The height is a parameter;
 the source fixes it at DEFAULT_HEIGHT, where indices are exactly the uint32s.
 */
module MerkleTree {
  import opened Prelude

  type Hasher = (Hash, Hash) -> Hash

  const DEFAULT_HEIGHT: nat := 32

  ghost predicate Injective(h: Hasher) {
    forall a, b, c, d :: h(a, b) == h(c, d) ==> a == c && b == d
  }

  lemma SamePreimage(h: Hasher, a: Hash, b: Hash, c: Hash, d: Hash)
    requires Injective(h) && h(a, b) == h(c, d)
    ensures a == c && b == d
  {
  }

  lemma Distinct(h: Hasher, a: Hash, b: Hash, c: Hash, d: Hash)
    requires Injective(h) && (a != c || b != d)
    ensures h(a, b) != h(c, d)
  {
  }

  // ----- positions -----

  /** index >> level */
  function Shift(index: nat, level: nat): nat {
    if level == 0 then index else Shift(index, level - 1) / 2
  }

  /** Bit `level` of index, as index & (1 << level) > 0 tests it. */
  predicate Bit(index: nat, level: nat) {
    Shift(index, level) % 2 == 1
  }

  function Pow2(n: nat): nat {
    if n == 0 then 1 else 2 * Pow2(n - 1)
  }

  lemma {:induction false} ShiftHalf(index: nat, level: nat)
    ensures Shift(index, level + 1) == Shift(index / 2, level)
  {
    if level > 0 { ShiftHalf(index, level - 1); }
  }

  lemma {:induction false} ShiftBound(index: nat, level: nat, width: nat)
    requires level <= width && index < Pow2(width)
    ensures Shift(index, level) < Pow2(width - level)
  {
    if level > 0 { ShiftBound(index, level - 1, width); }
  }

  lemma DefaultCapacity()
    ensures Pow2(DEFAULT_HEIGHT) == TWO_32
  {
    assert Pow2(8) == 256 by { assert Pow2(4) == 16; }
    assert Pow2(12) == 4096;
    assert Pow2(16) == 65536;
    assert Pow2(20) == 1048576;
    assert Pow2(24) == 16777216;
    assert Pow2(28) == 268435456;
  }

  /** Every index the tree has room for lies under the root. */
  lemma ShiftToRoot(index: nat, height: nat)
    requires index < Pow2(height)
    ensures Shift(index, height) == 0
  {
    ShiftBound(index, height, height);
  }

  lemma {:induction false} ShiftMonotone(i: nat, j: nat, level: nat)
    requires i <= j
    ensures Shift(i, level) <= Shift(j, level)
  {
    if level > 0 { ShiftMonotone(i, j, level - 1); }
  }

  /** The next index is under the same position or the next one. */
  lemma {:induction false} ShiftNext(index: nat, level: nat)
    ensures Shift(index, level) <= Shift(index + 1, level) <= Shift(index, level) + 1
  {
    if level > 0 { ShiftNext(index, level - 1); }
  }

  // ----- nodes -----

  function LeafAt(leaves: seq<Hash>, index: nat): Hash {
    if index < |leaves| then leaves[index] else 0
  }

  function Zero(h: Hasher, level: nat): Hash {
    if level == 0 then 0 else h(Zero(h, level - 1), Zero(h, level - 1))
  }

  function Node(h: Hasher, leaves: seq<Hash>, level: nat, pos: nat): Hash {
    if level == 0 then LeafAt(leaves, pos)
    else h(Node(h, leaves, level - 1, 2 * pos), Node(h, leaves, level - 1, 2 * pos + 1))
  }

  /** The parent of a node, seen from the child on either side. */
  lemma NodeParent(h: Hasher, leaves: seq<Hash>, level: nat, pos: nat)
    ensures Node(h, leaves, level + 1, pos / 2)
            == if pos % 2 == 1 then h(Node(h, leaves, level, pos - 1), Node(h, leaves, level, pos))
               else h(Node(h, leaves, level, pos), Node(h, leaves, level, pos + 1))
  {
    assert pos == 2 * (pos / 2) + pos % 2;
  }

  function Root(h: Hasher, leaves: seq<Hash>, height: nat): Hash {
    Node(h, leaves, height, 0)
  }

  /** A node all of whose leaves lie past the end is the zero node of its level. */
  lemma {:induction false} NodePastEnd(h: Hasher, leaves: seq<Hash>, level: nat, pos: nat)
    requires leaves == [] || Shift(|leaves| - 1, level) < pos
    ensures Node(h, leaves, level, pos) == Zero(h, level)
  {
    if level > 0 {
      NodePastEnd(h, leaves, level - 1, 2 * pos);
      NodePastEnd(h, leaves, level - 1, 2 * pos + 1);
    }
  }

  /** Appending a leaf changes only the nodes above it. */
  lemma {:induction false} NodeFrame(h: Hasher, leaves: seq<Hash>, x: Hash, level: nat, pos: nat)
    requires pos != Shift(|leaves|, level)
    ensures Node(h, leaves + [x], level, pos) == Node(h, leaves, level, pos)
  {
    if level > 0 {
      NodeFrame(h, leaves, x, level - 1, 2 * pos);
      NodeFrame(h, leaves, x, level - 1, 2 * pos + 1);
    }
  }

  /** Equal nodes have equal leaves beneath them, position by position. */
  lemma {:induction false} NodeDeterminesLeaf(
    h: Hasher, a: seq<Hash>, b: seq<Hash>, level: nat, pos: nat, index: nat)
    requires Injective(h) && Node(h, a, level, pos) == Node(h, b, level, pos)
    requires Shift(index, level) == pos
    ensures LeafAt(a, index) == LeafAt(b, index)
  {
    if level > 0 {
      SamePreimage(h, Node(h, a, level - 1, 2 * pos), Node(h, a, level - 1, 2 * pos + 1),
                   Node(h, b, level - 1, 2 * pos), Node(h, b, level - 1, 2 * pos + 1));
      NodeDeterminesLeaf(h, a, b, level - 1, Shift(index, level - 1), index);
    }
  }

  /** The root commits to every leaf: of two sequences with one root, the longer adds only zeros. */
  lemma RootIsBinding(h: Hasher, a: seq<Hash>, b: seq<Hash>, height: nat)
    requires Injective(h) && |a| <= |b| <= Pow2(height) && Root(h, a, height) == Root(h, b, height)
    ensures a <= b && forall i :: |a| <= i < |b| ==> b[i] == 0
  {
    forall i | 0 <= i < |b| ensures b[i] == LeafAt(a, i) {
      ShiftToRoot(i, height);
      NodeDeterminesLeaf(h, a, b, height, 0, i);
    }
  }

  // ----- the left cache and the incremental root -----

  /** The node on the path of index n at a level, computed from the leaf and the cached left siblings. */
  function PathNode(h: Hasher, cache: seq<Hash>, n: nat, leaf: Hash, level: nat): Hash
    requires level <= |cache|
  {
    if level == 0 then leaf
    else
      var below := PathNode(h, cache, n, leaf, level - 1);
      if Bit(n, level - 1) then h(cache[level - 1], below) else h(below, Zero(h, level - 1))
  }

  /** The root PutLeaf computes for a leaf at index n. */
  function PutRoot(h: Hasher, cache: seq<Hash>, n: nat, leaf: Hash): Hash {
    PathNode(h, cache, n, leaf, |cache|)
  }

  /** The cache after putting a leaf at index n. */
  function PutCache(h: Hasher, cache: seq<Hash>, n: nat, leaf: Hash): (r: seq<Hash>)
    ensures |r| == |cache|
    ensures forall level {:trigger r[level]} :: 0 <= level < |cache| ==>
              r[level] == if Bit(n, level) then cache[level] else PathNode(h, cache, n, leaf, level)
  {
    seq(|cache|, level requires 0 <= level < |cache| =>
      if Bit(n, level) then cache[level] else PathNode(h, cache, n, leaf, level))
  }

  /** The full subtree just left of the path of the next index, at a level where that index has a bit set. */
  function LeftOfPath(h: Hasher, leaves: seq<Hash>, level: nat): Hash
    requires Bit(|leaves|, level)
  {
    Node(h, leaves, level, Shift(|leaves|, level) - 1)
  }

  /** Where the next index has a bit set, the cache holds the subtree left of its path. */
  ghost predicate CacheOk(h: Hasher, leaves: seq<Hash>, cache: seq<Hash>) {
    forall level {:trigger cache[level]} :: 0 <= level < |cache| && Bit(|leaves|, level) ==>
      cache[level] == LeftOfPath(h, leaves, level)
  }

  /** The parent of the node above the new leaf, from its cached left sibling or from a zero right one. */
  lemma ParentOfPath(h: Hasher, leaves: seq<Hash>, leaf: Hash, level: nat)
    ensures var node := Node(h, leaves + [leaf], level, Shift(|leaves|, level));
            Node(h, leaves + [leaf], level + 1, Shift(|leaves|, level + 1))
            == if Bit(|leaves|, level) then h(LeftOfPath(h, leaves, level), node) else h(node, Zero(h, level))
  {
    var pos := Shift(|leaves|, level);
    NodeParent(h, leaves + [leaf], level, pos);
    if Bit(|leaves|, level) {
      NodeFrame(h, leaves, leaf, level, pos - 1);
    } else {
      NodePastEnd(h, leaves + [leaf], level, pos + 1);
    }
  }

  lemma {:induction false} PathNodeIsNode(h: Hasher, leaves: seq<Hash>, cache: seq<Hash>, leaf: Hash, level: nat)
    requires CacheOk(h, leaves, cache) && level <= |cache|
    ensures PathNode(h, cache, |leaves|, leaf, level) == Node(h, leaves + [leaf], level, Shift(|leaves|, level))
  {
    if level > 0 {
      PathNodeIsNode(h, leaves, cache, leaf, level - 1);
      ParentOfPath(h, leaves, leaf, level - 1);
      assert Bit(|leaves|, level - 1) ==> cache[level - 1] == LeftOfPath(h, leaves, level - 1);
    }
  }

  lemma PutCacheEntry(h: Hasher, leaves: seq<Hash>, cache: seq<Hash>, leaf: Hash, level: nat)
    requires CacheOk(h, leaves, cache) && level < |cache| && Bit(|leaves| + 1, level)
    ensures PutCache(h, cache, |leaves|, leaf)[level] == LeftOfPath(h, leaves + [leaf], level)
  {
    ShiftNext(|leaves|, level);
    if Bit(|leaves|, level) {
      NodeFrame(h, leaves, leaf, level, Shift(|leaves|, level) - 1);
    } else {
      PathNodeIsNode(h, leaves, cache, leaf, level);
    }
  }

  lemma PutCacheIsOk(h: Hasher, leaves: seq<Hash>, cache: seq<Hash>, leaf: Hash)
    requires CacheOk(h, leaves, cache)
    ensures CacheOk(h, leaves + [leaf], PutCache(h, cache, |leaves|, leaf))
  {
    var next := PutCache(h, cache, |leaves|, leaf);
    forall level {:trigger next[level]} | 0 <= level < |next| && Bit(|leaves + [leaf]|, level)
      ensures next[level] == LeftOfPath(h, leaves + [leaf], level)
    {
      PutCacheEntry(h, leaves, cache, leaf, level);
    }
  }

  /** With a good cache, putting the next leaf yields the root of the extended sequence and a good cache again. */
  lemma PutIsRight(h: Hasher, leaves: seq<Hash>, cache: seq<Hash>, leaf: Hash)
    requires CacheOk(h, leaves, cache) && |leaves| < Pow2(|cache|)
    ensures PutRoot(h, cache, |leaves|, leaf) == Root(h, leaves + [leaf], |cache|)
    ensures CacheOk(h, leaves + [leaf], PutCache(h, cache, |leaves|, leaf))
  {
    assert CacheOk(h, leaves + [leaf], PutCache(h, cache, |leaves|, leaf)) by {
      PutCacheIsOk(h, leaves, cache, leaf);
    }
    PathNodeIsNode(h, leaves, cache, leaf, |cache|);
    ShiftToRoot(|leaves|, |cache|);
  }

  /** A wrong entry that the path uses always shows in the root. */
  lemma {:induction false} WrongCacheShows(h: Hasher, good: seq<Hash>, bad: seq<Hash>, n: nat, leaf: Hash, level: nat, top: nat)
    requires Injective(h) && |good| == |bad|
    requires level < top <= |good| && Bit(n, level) && good[level] != bad[level]
    ensures PathNode(h, good, n, leaf, top) != PathNode(h, bad, n, leaf, top)
  {
    var below := PathNode(h, good, n, leaf, top - 1);
    var below' := PathNode(h, bad, n, leaf, top - 1);
    if level < top - 1 {
      WrongCacheShows(h, good, bad, n, leaf, level, top - 1);
      if Bit(n, top - 1) {
        Distinct(h, good[top - 1], below, bad[top - 1], below');
      } else {
        Distinct(h, below, Zero(h, top - 1), below', Zero(h, top - 1));
      }
    } else {
      Distinct(h, good[level], below, bad[level], below');
    }
  }

  /** So for one next leaf or for all of them, the computed root is right exactly when the cache is. */
  lemma RootIsRightIffCacheIs(h: Hasher, leaves: seq<Hash>, good: seq<Hash>, cache: seq<Hash>, leaf: Hash)
    requires Injective(h) && |good| == |cache| && CacheOk(h, leaves, good) && |leaves| < Pow2(|cache|)
    ensures PutRoot(h, cache, |leaves|, leaf) == Root(h, leaves + [leaf], |cache|) <==> CacheOk(h, leaves, cache)
  {
    PutIsRight(h, leaves, good, leaf);
    if CacheOk(h, leaves, cache) {
      PutIsRight(h, leaves, cache, leaf);
    } else {
      var level :| 0 <= level < |cache| && Bit(|leaves|, level)
                   && cache[level] != LeftOfPath(h, leaves, level);
      WrongCacheShows(h, good, cache, |leaves|, leaf, level, |cache|);
    }
  }
}
