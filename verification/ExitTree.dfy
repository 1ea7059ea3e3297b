/**
 The append-only exit tree over its two tables: one root row per leaf, and the
 reverse hash table of nodes. Leaves are never stored as such; the cached left
 siblings and the cached last index let PutLeaf extend the tree without reading
 it, and are rebuilt from the tables when the next index is not the cached one.
 */
module ExitTree {
  import opened Prelude
  import opened MerkleTree
  import opened MerkleProof

  datatype RootRow = RootRow(hash: Hash, position: nat, blockNum: nat, blockPos: nat)

  type NodeTable = map<Hash, (Hash, Hash)>

  predicate RowBefore(a: RootRow, b: RootRow) {
    Earlier(a.blockNum, a.blockPos, b.blockNum, b.blockPos)
  }

  ghost predicate RowsOrdered(roots: seq<RootRow>) {
    forall i, j :: 0 <= i < j < |roots| ==> RowBefore(roots[i], roots[j])
  }

  /** Every stored node is the hash of its stored children. */
  ghost predicate SoundNodes(h: Hasher, rht: NodeTable) {
    forall k :: k in rht ==> h(rht[k].0, rht[k].1) == k
  }

  /** Every inner node with a leaf beneath it is stored. */
  ghost predicate Stored(h: Hasher, leaves: seq<Hash>, rht: NodeTable, height: nat) {
    leaves != [] ==>
      forall level: nat, pos: nat {:trigger Node(h, leaves, level, pos)} ::
        1 <= level <= height && pos <= Shift(|leaves| - 1, level) ==> Node(h, leaves, level, pos) in rht
  }

  /** The tables describe the leaves, and all their prefixes: a truncation needs no repair. */
  ghost predicate Describes(h: Hasher, height: nat, roots: seq<RootRow>, rht: NodeTable, leaves: seq<Hash>) {
    && |roots| == |leaves| <= Pow2(height)
    && RowsOrdered(roots)
    && SoundNodes(h, rht)
    && (forall i :: 0 <= i < |roots| ==> roots[i].position == i)
    && (forall i :: 0 <= i < |roots| ==> roots[i].hash == Root(h, leaves[..i + 1], height))
    && (forall m :: 0 <= m <= |leaves| ==> Stored(h, leaves[..m], rht, height))
  }

  lemma NodeOnPath(h: Hasher, leaves: seq<Hash>, rht: NodeTable, height: nat, level: nat, pos: nat)
    requires Injective(h) && SoundNodes(h, rht)
    requires Node(h, leaves, level + 1, pos) in rht
    ensures rht[Node(h, leaves, level + 1, pos)] == (Node(h, leaves, level, 2 * pos), Node(h, leaves, level, 2 * pos + 1))
  {
    var k := Node(h, leaves, level + 1, pos);
    SamePreimage(h, rht[k].0, rht[k].1, Node(h, leaves, level, 2 * pos), Node(h, leaves, level, 2 * pos + 1));
  }

  lemma DescribesPrefix(h: Hasher, height: nat, roots: seq<RootRow>, rht: NodeTable, leaves: seq<Hash>, m: nat)
    requires Describes(h, height, roots, rht, leaves) && m <= |leaves|
    ensures Describes(h, height, roots[..m], rht, leaves[..m])
  {
    forall i | 0 <= i <= m ensures leaves[..m][..i] == leaves[..i] {}
  }

  // ----- rebuilding the cache -----

  /** The left child, at a level, of the node above the last leaf. */
  function LeftAboveLast(h: Hasher, leaves: seq<Hash>, level: nat): Hash
    requires leaves != []
  {
    Node(h, leaves, level, 2 * Shift(|leaves| - 1, level + 1))
  }

  /** The node above the last leaf at a level. */
  function AboveLast(h: Hasher, leaves: seq<Hash>, level: nat): Hash
    requires leaves != []
  {
    Node(h, leaves, level, Shift(|leaves| - 1, level))
  }

  /** One step down the path to the last leaf. */
  lemma DescendOne(h: Hasher, leaves: seq<Hash>, rht: NodeTable, height: nat, level: nat)
    requires Injective(h) && SoundNodes(h, rht) && Stored(h, leaves, rht, height)
    requires leaves != [] && level < height
    ensures var index := |leaves| - 1;
            var node := AboveLast(h, leaves, level + 1);
            && node in rht
            && rht[node].0 == LeftAboveLast(h, leaves, level)
            && (if Bit(index, level) then rht[node].1 else rht[node].0) == AboveLast(h, leaves, level)
  {
    var pos := Shift(|leaves| - 1, level + 1);
    NodeOnPath(h, leaves, rht, height, level, pos);
    assert Shift(|leaves| - 1, level) == if Bit(|leaves| - 1, level) then 2 * pos + 1 else 2 * pos;
  }

  /** The cache holds the left children above the last leaf, level by level. */
  ghost predicate FullLeft(h: Hasher, leaves: seq<Hash>, left: seq<Hash>) {
    leaves != [] ==> forall level {:trigger left[level]} :: 0 <= level < |left| ==> left[level] == LeftAboveLast(h, leaves, level)
  }

  /** Those left children are what the next leaf needs. */
  lemma RebuiltCache(h: Hasher, leaves: seq<Hash>, cache: seq<Hash>)
    requires FullLeft(h, leaves, cache)
    ensures CacheOk(h, leaves, cache)
  {
    forall level {:trigger cache[level]} | 0 <= level < |cache| && Bit(|leaves|, level)
      ensures cache[level] == LeftOfPath(h, leaves, level)
    {
      if leaves == [] {
        ShiftOfZero(level);
      } else {
        ShiftNext(|leaves| - 1, level);
      }
    }
  }

  // ----- what the tree keeps beside its tables -----

  datatype Cache = Cache(lastIndex: int, left: seq<Hash>)

  /** What a rebuild reads from tables that describe the leaves. */
  function RebuiltLeft(h: Hasher, leaves: seq<Hash>, height: nat): (r: seq<Hash>)
    ensures |r| == height && FullLeft(h, leaves, r)
  {
    seq(height, level requires 0 <= level < height => if leaves == [] then 0 else LeftAboveLast(h, leaves, level))
  }

  function Rebuilt(h: Hasher, leaves: seq<Hash>, height: nat): Cache {
    Cache(|leaves| - 1, RebuiltLeft(h, leaves, height))
  }

  /** The cache a put at an index works with: the kept one when it expects that index, else a rebuilt one. */
  function CacheFor(h: Hasher, k: Cache, leaves: seq<Hash>, index: nat): Cache {
    if index == k.lastIndex + 1 then k else Rebuilt(h, leaves, |k.left|)
  }

  /** If the cached index is that of a prefix of the leaves, the cached siblings are those the prefix needs. */
  ghost predicate CacheFits(h: Hasher, leaves: seq<Hash>, k: Cache) {
    0 <= k.lastIndex + 1 <= |leaves| ==> CacheOk(h, leaves[..k.lastIndex + 1], k.left)
  }

  lemma RebuiltFits(h: Hasher, leaves: seq<Hash>, height: nat)
    ensures CacheFits(h, leaves, Rebuilt(h, leaves, height))
  {
    assert leaves[..|leaves|] == leaves;
    RebuiltCache(h, leaves, RebuiltLeft(h, leaves, height));
  }

  lemma CacheForFits(h: Hasher, k: Cache, leaves: seq<Hash>, index: nat)
    requires CacheFits(h, leaves, k)
    ensures CacheFits(h, leaves, CacheFor(h, k, leaves, index))
    ensures index == |leaves| ==> CacheOk(h, leaves, CacheFor(h, k, leaves, index).left)
  {
    assert leaves[..|leaves|] == leaves;
    RebuiltCache(h, leaves, RebuiltLeft(h, leaves, |k.left|));
  }

  /** A truncation asks nothing of the cache. */
  lemma TruncationFits(h: Hasher, leaves: seq<Hash>, k: Cache, m: nat)
    requires CacheFits(h, leaves, k) && m <= |leaves|
    ensures CacheFits(h, leaves[..m], k)
  {
    if 0 <= k.lastIndex + 1 <= m { assert leaves[..m][..k.lastIndex + 1] == leaves[..k.lastIndex + 1]; }
  }

  /** A put writes only entries its own index does not need. */
  lemma OwnIndexSurvives(h: Hasher, leaves: seq<Hash>, cache: seq<Hash>, leaf: Hash)
    requires CacheOk(h, leaves, cache)
    ensures CacheOk(h, leaves, PutCache(h, cache, |leaves|, leaf))
  {
    var next := PutCache(h, cache, |leaves|, leaf);
    forall level {:trigger next[level]} | 0 <= level < |next| && Bit(|leaves|, level)
      ensures next[level] == LeftOfPath(h, leaves, level)
    {
      assert cache[level] == LeftOfPath(h, leaves, level);
    }
  }

  /** After a put from a good cache every entry is again the left child above the last leaf. */
  lemma PutFills(h: Hasher, leaves: seq<Hash>, cache: seq<Hash>, leaf: Hash)
    requires CacheOk(h, leaves, cache)
    ensures FullLeft(h, leaves + [leaf], PutCache(h, cache, |leaves|, leaf))
  {
    var next := PutCache(h, cache, |leaves|, leaf);
    forall level {:trigger next[level]} | 0 <= level < |next| ensures next[level] == LeftAboveLast(h, leaves + [leaf], level) {
      var pos := Shift(|leaves|, level);
      if Bit(|leaves|, level) {
        assert cache[level] == LeftOfPath(h, leaves, level);
        NodeFrame(h, leaves, leaf, level, pos - 1);
      } else {
        PathNodeIsNode(h, leaves, cache, leaf, level);
      }
    }
  }

  // ----- the nodes one leaf adds -----

  /** The nodes PutLeaf stores on its way up, in order. */
  function PathNodes(h: Hasher, cache: seq<Hash>, n: nat, leaf: Hash, level: nat): seq<(Hash, Hash)>
    requires level <= |cache|
  {
    if level == 0 then []
    else
      var below := PathNode(h, cache, n, leaf, level - 1);
      PathNodes(h, cache, n, leaf, level - 1)
      + [if Bit(n, level - 1) then (cache[level - 1], below) else (below, Zero(h, level - 1))]
  }

  /** Insert nodes, ignoring those already there. */
  function StoreNodes(h: Hasher, rht: NodeTable, nodes: seq<(Hash, Hash)>): NodeTable
    decreases |nodes|
  {
    if nodes == [] then rht
    else
      var last := nodes[|nodes| - 1];
      var t := StoreNodes(h, rht, nodes[..|nodes| - 1]);
      var k := h(last.0, last.1);
      if k in t then t else t[k := last]
  }

  lemma {:induction false} StoreNodesGrows(h: Hasher, rht: NodeTable, nodes: seq<(Hash, Hash)>)
    requires SoundNodes(h, rht)
    ensures SoundNodes(h, StoreNodes(h, rht, nodes))
    ensures forall k :: k in rht ==> k in StoreNodes(h, rht, nodes)
    ensures forall i :: 0 <= i < |nodes| ==> h(nodes[i].0, nodes[i].1) in StoreNodes(h, rht, nodes)
    decreases |nodes|
  {
    if nodes != [] {
      StoreNodesGrows(h, rht, nodes[..|nodes| - 1]);
      forall i | 0 <= i < |nodes| ensures h(nodes[i].0, nodes[i].1) in StoreNodes(h, rht, nodes) {
        if i < |nodes| - 1 { assert nodes[i] == nodes[..|nodes| - 1][i]; }
      }
    }
  }

  /** One level up: the node, the pair that is stored, and the cache entry. */
  lemma ClimbStep(h: Hasher, cache: seq<Hash>, n: nat, leaf: Hash, level: nat)
    requires level < |cache|
    ensures var node := PathNode(h, cache, n, leaf, level);
            var pair := if Bit(n, level) then (cache[level], node) else (node, Zero(h, level));
            && PathNode(h, cache, n, leaf, level + 1) == h(pair.0, pair.1)
            && PathNodes(h, cache, n, leaf, level + 1) == PathNodes(h, cache, n, leaf, level) + [pair]
            && PutCache(h, cache, n, leaf)[level] == (if Bit(n, level) then cache[level] else node)
            && Zero(h, level + 1) == h(Zero(h, level), Zero(h, level))
  {
  }

  lemma {:induction false} PathNodesAre(h: Hasher, cache: seq<Hash>, n: nat, leaf: Hash, top: nat, level: nat)
    requires 1 <= level <= top <= |cache|
    ensures |PathNodes(h, cache, n, leaf, top)| == top
    ensures var p := PathNodes(h, cache, n, leaf, top)[level - 1]; h(p.0, p.1) == PathNode(h, cache, n, leaf, level)
  {
    PathNodesLength(h, cache, n, leaf, top);
    PathNodesLength(h, cache, n, leaf, top - 1);
    if level < top { PathNodesAre(h, cache, n, leaf, top - 1, level); }
  }

  lemma {:induction false} PathNodesLength(h: Hasher, cache: seq<Hash>, n: nat, leaf: Hash, level: nat)
    requires level <= |cache|
    ensures |PathNodes(h, cache, n, leaf, level)| == level
  {
    if level > 0 { PathNodesLength(h, cache, n, leaf, level - 1); }
  }

  /** After the put, every inner node above a leaf is stored again. */
  lemma PutStores(h: Hasher, leaves: seq<Hash>, cache: seq<Hash>, leaf: Hash, rht: NodeTable)
    requires CacheOk(h, leaves, cache) && SoundNodes(h, rht) && Stored(h, leaves, rht, |cache|)
    ensures var next := StoreNodes(h, rht, PathNodes(h, cache, |leaves|, leaf, |cache|));
            SoundNodes(h, next) && Stored(h, leaves + [leaf], next, |cache|) && forall k :: k in rht ==> k in next
  {
    var n := |leaves|;
    var nodes := PathNodes(h, cache, n, leaf, |cache|);
    var next := StoreNodes(h, rht, nodes);
    StoreNodesGrows(h, rht, nodes);
    forall level: nat, pos: nat {:trigger Node(h, leaves + [leaf], level, pos)} | 1 <= level <= |cache| && pos <= Shift(n, level)
      ensures Node(h, leaves + [leaf], level, pos) in next
    {
      if pos == Shift(n, level) {
        PathNodesAre(h, cache, n, leaf, |cache|, level);
        PathNodeIsNode(h, leaves, cache, leaf, level);
      } else {
        NodeFrame(h, leaves, leaf, level, pos);
        if n == 0 {
          ShiftOfZero(level);
        } else {
          ShiftNext(n - 1, level);
        }
      }
    }
  }

  lemma {:induction false} ShiftOfZero(level: nat)
    ensures Shift(0, level) == 0
  {
    if level > 0 { ShiftOfZero(level - 1); }
  }

  /** One more leaf, its root row and its nodes: the tables describe the extended sequence. */
  lemma DescribesExtended(
    h: Hasher, height: nat, roots: seq<RootRow>, rht: NodeTable, leaves: seq<Hash>, cache: seq<Hash>, leaf: Hash, row: RootRow)
    requires Describes(h, height, roots, rht, leaves) && CacheOk(h, leaves, cache)
    requires |cache| == height && |leaves| < Pow2(height)
    requires row.hash == PutRoot(h, cache, |leaves|, leaf) && row.position == |leaves|
    requires roots != [] ==> RowBefore(roots[|roots| - 1], row)
    ensures Describes(h, height, roots + [row], StoreNodes(h, rht, PathNodes(h, cache, |leaves|, leaf, height)), leaves + [leaf])
  {
    var n := |leaves|;
    var all := leaves + [leaf];
    var next := StoreNodes(h, rht, PathNodes(h, cache, n, leaf, height));
    assert leaves[..n] == leaves;
    PutStores(h, leaves, cache, leaf, rht);
    PutIsRight(h, leaves, cache, leaf);
    forall m | 0 <= m <= |all| ensures Stored(h, all[..m], next, height) {
      StoredPrefix(h, height, roots, rht, leaves, leaf, next, m);
    }
    forall i | 0 <= i <= n ensures (roots + [row])[i].hash == Root(h, all[..i + 1], height) {
      if i < n {
        assert all[..i + 1] == leaves[..i + 1];
      } else {
        assert all[..i + 1] == all;
      }
    }
    RowsStayOrdered(roots, row);
  }

  lemma RowsStayOrdered(roots: seq<RootRow>, row: RootRow)
    requires RowsOrdered(roots) && (roots != [] ==> RowBefore(roots[|roots| - 1], row))
    ensures RowsOrdered(roots + [row])
  {
    var n := |roots|;
    forall i, j | 0 <= i < j <= n ensures RowBefore((roots + [row])[i], (roots + [row])[j]) {
      if j == n && i < n - 1 { assert RowBefore(roots[i], roots[n - 1]); }
    }
  }

  lemma StoredPrefix(
    h: Hasher, height: nat, roots: seq<RootRow>, rht: NodeTable, leaves: seq<Hash>, leaf: Hash, next: NodeTable, m: nat)
    requires Describes(h, height, roots, rht, leaves) && m <= |leaves| + 1
    requires Stored(h, leaves + [leaf], next, height) && forall k :: k in rht ==> k in next
    ensures Stored(h, (leaves + [leaf])[..m], next, height)
  {
    var all := leaves + [leaf];
    if m <= |leaves| {
      assert all[..m] == leaves[..m];
      StoredGrows(h, leaves[..m], rht, next, height);
    } else {
      assert all[..m] == all;
    }
  }

  lemma StoredGrows(h: Hasher, leaves: seq<Hash>, rht: NodeTable, next: NodeTable, height: nat)
    requires Stored(h, leaves, rht, height) && forall k :: k in rht ==> k in next
    ensures Stored(h, leaves, next, height)
  {
  }

  /** A leaf that is not zero gives a root no earlier prefix has. */
  lemma RootIsFresh(h: Hasher, height: nat, roots: seq<RootRow>, rht: NodeTable, leaves: seq<Hash>, leaf: Hash, i: nat)
    requires Injective(h) && Describes(h, height, roots, rht, leaves) && |leaves| < Pow2(height) && leaf != 0 && i < |roots|
    ensures roots[i].hash != Root(h, leaves + [leaf], height)
  {
    var all := leaves + [leaf];
    assert all[|leaves|] != 0;
    if roots[i].hash == Root(h, all, height) {
      RootIsBinding(h, leaves[..i + 1], all, height);
    }
  }

  // ----- what a put does -----

  ghost predicate Later(roots: seq<RootRow>, blockNum: nat, blockPos: nat) {
    roots != [] ==> Earlier(roots[|roots| - 1].blockNum, roots[|roots| - 1].blockPos, blockNum, blockPos)
  }

  function NewRoot(h: Hasher, k: Cache, leaves: seq<Hash>, index: nat, leaf: Hash): Hash {
    PutRoot(h, CacheFor(h, k, leaves, index).left, index, leaf)
  }

  ghost predicate Accepts(h: Hasher, k: Cache, roots: seq<RootRow>, leaves: seq<Hash>, index: nat, leaf: Hash) {
    && index == CacheFor(h, k, leaves, index).lastIndex + 1
    && IsNew(roots, NewRoot(h, k, leaves, index, leaf))
  }

  predicate IsNew(roots: seq<RootRow>, hash: Hash) {
    forall i :: 0 <= i < |roots| ==> roots[i].hash != hash
  }

  /** A refused index leaves the rebuilt cache; otherwise the siblings are overwritten, and an accepted put moves the index on. */
  function CacheAfterPut(h: Hasher, k: Cache, leaves: seq<Hash>, index: nat, leaf: Hash, accepted: bool): Cache {
    var used := CacheFor(h, k, leaves, index);
    if index != used.lastIndex + 1 then used
    else Cache(if accepted then index else used.lastIndex, PutCache(h, used.left, index, leaf))
  }

  /** An index other than the number of leaves is accepted only because the kept cache expects it. */
  lemma StrayIndexIsCached(h: Hasher, k: Cache, roots: seq<RootRow>, leaves: seq<Hash>, index: nat, leaf: Hash)
    requires index != |leaves|
    ensures Accepts(h, k, roots, leaves, index, leaf) <==>
            index == k.lastIndex + 1 && IsNew(roots, PutRoot(h, k.left, index, leaf))
  {
  }

  lemma NextPutIsRight(
    h: Hasher, height: nat, roots: seq<RootRow>, rht: NodeTable, leaves: seq<Hash>, cache: seq<Hash>, leaf: Hash, row: RootRow)
    requires Injective(h) && Describes(h, height, roots, rht, leaves) && CacheOk(h, leaves, cache)
    requires |cache| == height && |leaves| < Pow2(height)
    requires row.hash == PutRoot(h, cache, |leaves|, leaf) && row.position == |leaves|
    ensures row.hash == Root(h, leaves + [leaf], height)
    ensures CacheFits(h, leaves + [leaf], Cache(|leaves|, PutCache(h, cache, |leaves|, leaf)))
    ensures Later(roots, row.blockNum, row.blockPos) ==>
              Describes(h, height, roots + [row], StoreNodes(h, rht, PathNodes(h, cache, |leaves|, leaf, height)), leaves + [leaf])
    ensures leaf != 0 ==> IsNew(roots, row.hash)
  {
    var all := leaves + [leaf];
    PutIsRight(h, leaves, cache, leaf);
    assert all[..|leaves| + 1] == all;
    if Later(roots, row.blockNum, row.blockPos) { DescribesExtended(h, height, roots, rht, leaves, cache, leaf, row); }
    if leaf != 0 {
      forall i | 0 <= i < |roots| ensures roots[i].hash != row.hash {
        RootIsFresh(h, height, roots, rht, leaves, leaf, i);
      }
    }
  }

  /** A put whose root is already stored has overwritten siblings, but none that its index needs. */
  lemma FailedPutFits(h: Hasher, leaves: seq<Hash>, k: Cache, leaf: Hash)
    requires CacheFits(h, leaves, k) && k.lastIndex >= -1
    ensures CacheFits(h, leaves, Cache(k.lastIndex, PutCache(h, k.left, k.lastIndex + 1, leaf)))
  {
    var n := k.lastIndex + 1;
    if n <= |leaves| { OwnIndexSurvives(h, leaves[..n], k.left, leaf); }
  }

  /** A row out of place or out of order leaves tables that describe nothing. */
  lemma StrayRow(h: Hasher, height: nat, roots: seq<RootRow>, rht: NodeTable, leaves: seq<Hash>, row: RootRow)
    requires |roots| == |leaves|
    requires !(row.position == |leaves| && Later(roots, row.blockNum, row.blockPos))
    ensures forall ls :: !Describes(h, height, roots + [row], rht, ls)
  {
    var all := roots + [row];
    assert all[|roots|] == row;
    if row.position == |leaves| {
      assert roots != [] && all[|roots| - 1] == roots[|roots| - 1];
      assert !RowBefore(all[|roots| - 1], all[|roots|]);
    }
  }

  // ----- reading proofs -----

  /** At this level the path of index has left the part of the tree that has leaves. */
  ghost predicate PastEnd(leaves: seq<Hash>, index: nat, level: nat) {
    leaves == [] || Shift(|leaves| - 1, level) < Shift(index, level)
  }

  /** A stored node on the path yields the sibling and the next node below. */
  lemma StepDown(h: Hasher, leaves: seq<Hash>, rht: NodeTable, index: nat, level: nat)
    requires Injective(h) && SoundNodes(h, rht) && OnPath(h, leaves, index, level + 1) in rht
    ensures var node := rht[OnPath(h, leaves, index, level + 1)];
            && SiblingAt(h, leaves, index, level) == (if Bit(index, level) then node.0 else node.1)
            && OnPath(h, leaves, index, level) == (if Bit(index, level) then node.1 else node.0)
  {
    var pos := Shift(index, level + 1);
    NodeOnPath(h, leaves, rht, 0, level, pos);
    assert Shift(index, level) == if Bit(index, level) then 2 * pos + 1 else 2 * pos;
  }

  /** A missing node on the path has no leaves beneath it, so the sibling below it is a zero node. */
  lemma StepPastEnd(h: Hasher, leaves: seq<Hash>, index: nat, level: nat)
    requires PastEnd(leaves, index, level + 1)
    ensures PastEnd(leaves, index, level) && SiblingAt(h, leaves, index, level) == Zero(h, level)
  {
    NodePastEnd(h, leaves, level, SiblingPos(Shift(index, level)));
  }

  /** The node the walk is at: the one on the path, or a missing one past the last leaf. */
  ghost predicate PathOrPast(h: Hasher, leaves: seq<Hash>, rht: NodeTable, index: nat, level: nat, current: Hash) {
    current == OnPath(h, leaves, index, level) || (current !in rht && PastEnd(leaves, index, level))
  }

  lemma ProofStep(h: Hasher, leaves: seq<Hash>, rht: NodeTable, height: nat, index: nat, level: nat, current: Hash)
    requires Injective(h) && SoundNodes(h, rht) && Stored(h, leaves, rht, height) && level < height
    requires PathOrPast(h, leaves, rht, index, level + 1, current)
    ensures if current in rht
            then var node := rht[current];
                 && SiblingAt(h, leaves, index, level) == (if Bit(index, level) then node.0 else node.1)
                 && PathOrPast(h, leaves, rht, index, level, if Bit(index, level) then node.1 else node.0)
            else SiblingAt(h, leaves, index, level) == Zero(h, level) && PathOrPast(h, leaves, rht, index, level, current)
  {
    if current in rht {
      StepDown(h, leaves, rht, index, level);
    } else {
      assert PastEnd(leaves, index, level + 1);
      StepPastEnd(h, leaves, index, level);
    }
  }

  /** The siblings read on the way down from a node; below a node that is not stored, those of empty subtrees. */
  function ReadSiblings(h: Hasher, rht: NodeTable, current: Hash, index: nat, level: nat): (r: seq<Hash>)
    ensures |r| == level
    decreases level
  {
    if level == 0 then []
    else if current !in rht then ReadSiblings(h, rht, current, index, level - 1) + [Zero(h, level - 1)]
    else
      var (left, right) := rht[current];
      if Bit(index, level - 1) then ReadSiblings(h, rht, right, index, level - 1) + [left]
      else ReadSiblings(h, rht, left, index, level - 1) + [right]
  }

  /** One step of the way down: the sibling stored there and the siblings below. */
  lemma ReadStep(h: Hasher, rht: NodeTable, current: Hash, index: nat, level: nat, all: seq<Hash>)
    requires |all| > level && ReadSiblings(h, rht, current, index, level + 1) == all[..level + 1]
    ensures current in rht && Bit(index, level) ==>
              ReadSiblings(h, rht, rht[current].1, index, level) == all[..level] && rht[current].0 == all[level]
    ensures current in rht && !Bit(index, level) ==>
              ReadSiblings(h, rht, rht[current].0, index, level) == all[..level] && rht[current].1 == all[level]
    ensures current !in rht ==> ReadSiblings(h, rht, current, index, level) == all[..level] && Zero(h, level) == all[level]
  {
    assert all[..level + 1][..level] == all[..level];
    assert all[..level + 1][level] == all[level];
  }

  lemma {:induction false} ReadsTheSiblings(
    h: Hasher, leaves: seq<Hash>, rht: NodeTable, height: nat, index: nat, level: nat, current: Hash)
    requires Injective(h) && SoundNodes(h, rht) && Stored(h, leaves, rht, height) && level <= height
    requires PathOrPast(h, leaves, rht, index, level, current)
    ensures ReadSiblings(h, rht, current, index, level) == Siblings(h, leaves, index, level)
    decreases level
  {
    if level > 0 {
      ProofStep(h, leaves, rht, height, index, level - 1, current);
      var below := if current !in rht then current else if Bit(index, level - 1) then rht[current].1 else rht[current].0;
      ReadsTheSiblings(h, leaves, rht, height, index, level - 1, below);
      assert Siblings(h, leaves, index, level)
          == Siblings(h, leaves, index, level - 1) + [SiblingAt(h, leaves, index, level - 1)];
    }
  }

  /** For the root of the first m leaves they are the true siblings, and the true leaf verifies with them. */
  lemma StoredRootHasProof(
    h: Hasher, height: nat, roots: seq<RootRow>, rht: NodeTable, leaves: seq<Hash>, index: nat, m: nat)
    requires Injective(h) && Describes(h, height, roots, rht, leaves) && 0 < m <= |leaves| && index < Pow2(height)
    ensures var proof := ReadSiblings(h, rht, roots[m - 1].hash, index, height);
            && proof == Siblings(h, leaves[..m], index, height)
            && Climb(h, LeafAt(leaves[..m], index), proof, index, height) == roots[m - 1].hash
  {
    ShiftToRoot(index, height);
    ReadsTheSiblings(h, leaves[..m], rht, height, index, height, roots[m - 1].hash);
    ProofIsExact(h, leaves[..m], LeafAt(leaves[..m], index), Siblings(h, leaves[..m], index, height), index);
  }

  predicate ZeroSiblings(h: Hasher, proof: seq<Hash>) {
    forall i {:trigger proof[i]} :: 0 <= i < |proof| ==> proof[i] == Zero(h, i)
  }

  /** For a root the node table does not know the proof is that of an empty tree, and no error says so. */
  lemma {:induction false} UnknownRootReadsZeros(h: Hasher, rht: NodeTable, root: Hash, index: nat, level: nat)
    requires root !in rht
    ensures ZeroSiblings(h, ReadSiblings(h, rht, root, index, level))
    decreases level
  {
    if level > 0 {
      UnknownRootReadsZeros(h, rht, root, index, level - 1);
    }
  }

  /** In order, the roots before a block are the first m. */
  lemma {:induction false} DroppedRootsAreLast(roots: seq<RootRow>, first: nat) returns (m: nat)
    requires RowsOrdered(roots)
    ensures m <= |roots|
    ensures forall i :: 0 <= i < |roots| ==> (roots[i].blockNum < first <==> i < m)
    decreases |roots|
  {
    m := 0;
    if roots != [] {
      var last := |roots| - 1;
      m := DroppedRootsAreLast(roots[..last], first);
      if roots[last].blockNum < first {
        assert forall i :: 0 <= i < last ==> RowBefore(roots[i], roots[last]);
        m := |roots|;
      }
    }
  }

  // ----- the tree -----

  class AppendOnlyTree {
    const hash: Hasher
    const height: nat
    var roots: seq<RootRow>
    var rht: NodeTable
    var lastIndex: int
    const lastLeft: array<Hash>
    ghost var leaves: seq<Hash>

    ghost predicate Valid()
      reads this, lastLeft
    {
      && Injective(hash)
      && lastLeft.Length == height
      && Describes(hash, height, roots, rht, leaves)
      && CacheFits(hash, leaves, Kept())
    }

    ghost function Kept(): Cache
      reads this, lastLeft
    {
      Cache(lastIndex, lastLeft[..])
    }

    constructor (hash: Hasher, height: nat)
      requires Injective(hash)
      ensures Valid() && fresh(lastLeft)
      ensures this.hash == hash && this.height == height && leaves == [] && roots == []
    {
      this.hash, this.height := hash, height;
      roots, rht, leaves := [], map[], [];
      lastIndex := -2;
      lastLeft := new Hash[height];
    }

    /** The newest root by block and position. */
    method GetLastRoot() returns (row: Option<RootRow>)
      requires Valid()
      ensures row == if roots == [] then None else Some(roots[|roots| - 1])
    {
      row := None;
      for i := 0 to |roots|
        invariant row == if i == 0 then None else Some(roots[i - 1])
      {
        if row.None? || RowBefore(row.value, roots[i]) {
          row := Some(roots[i]);
        }
      }
    }

    /** Walk down from the newest root to its leaf, caching the left child at every level. */
    method CacheLeftChildren(root: Hash, index: nat)
      requires Injective(hash) && SoundNodes(hash, rht) && Stored(hash, leaves, rht, height)
      requires index == |leaves| - 1 && |leaves| <= Pow2(height) && root == Root(hash, leaves, height)
      requires lastLeft.Length == height
      modifies lastLeft
      ensures lastLeft[..] == RebuiltLeft(hash, leaves, height)
    {
      var current := root;
      ShiftToRoot(index, height);
      var level := height;
      while level > 0
        invariant 0 <= level <= height
        invariant current == AboveLast(hash, leaves, level)
        invariant forall k {:trigger lastLeft[k]} :: level <= k < height ==> lastLeft[k] == LeftAboveLast(hash, leaves, k)
      {
        level := level - 1;
        DescendOne(hash, leaves, rht, height, level);
        var node := rht[current];
        lastLeft[level] := node.0;
        current := if Bit(index, level) then node.1 else node.0;
      }
      assert lastLeft[..] == RebuiltLeft(hash, leaves, height);
    }

    /** Rebuild the cached index and left siblings from the tables. */
    method InitCache()
      requires Valid()
      modifies this`lastIndex, lastLeft
      ensures Valid() && Kept() == Rebuilt(hash, leaves, height)
    {
      var last := GetLastRoot();
      RebuiltFits(hash, leaves, height);
      if last.None? {
        lastIndex := -1;
        forall level | 0 <= level < height { lastLeft[level] := 0; }
        assert lastLeft[..] == RebuiltLeft(hash, leaves, height);
      } else {
        lastIndex := last.value.position;
        assert leaves[..|leaves|] == leaves;
        assert Stored(hash, leaves[..|leaves|], rht, height);
        CacheLeftChildren(last.value.hash, last.value.position);
      }
    }

    /** From the leaf to the root: the new nodes, and in the cache every node that is a left child. */
    method Climb(index: nat, leaf: Hash) returns (current: Hash, nodes: seq<(Hash, Hash)>)
      requires lastLeft.Length == height
      modifies lastLeft
      ensures current == PutRoot(hash, old(lastLeft[..]), index, leaf)
      ensures nodes == PathNodes(hash, old(lastLeft[..]), index, leaf, height)
      ensures lastLeft[..] == PutCache(hash, old(lastLeft[..]), index, leaf)
    {
      ghost var cache := lastLeft[..];
      ghost var next := PutCache(hash, cache, index, leaf);
      current, nodes := leaf, [];
      var zero: Hash := 0;
      for level := 0 to height
        invariant current == PathNode(hash, cache, index, leaf, level) && zero == Zero(hash, level)
        invariant nodes == PathNodes(hash, cache, index, leaf, level)
        invariant forall k {:trigger lastLeft[k]} :: level <= k < height ==> lastLeft[k] == cache[k]
        invariant forall k {:trigger lastLeft[k]} :: 0 <= k < level ==> lastLeft[k] == next[k]
      {
        ClimbStep(hash, cache, index, leaf, level);
        assert lastLeft[level] == cache[level];
        if Bit(index, level) {
          nodes := nodes + [(lastLeft[level], current)];
          current := hash(lastLeft[level], current);
        } else {
          nodes := nodes + [(current, zero)];
          lastLeft[level] := current;
          current := hash(current, zero);
        }
        zero := hash(zero, zero);
      }
      assert lastLeft[..] == next;
    }

    /**
     Put a leaf and return the new root. An index is accepted exactly when the
     cache in use expects it and the computed root is not stored yet. The next
     index in order keeps the tree valid, and a leaf that is not zero is always
     accepted there. Any other accepted put, at an index only the kept cache
     expects or out of order, leaves tables that describe no leaves at all.
     */
    method PutLeaf(blockNum: nat, blockPos: nat, index: nat, leaf: Hash) returns (root: Option<Hash>)
      requires Valid() && index < Pow2(height)
      modifies this, lastLeft
      ensures root.Some? <==> Accepts(hash, old(Kept()), old(roots), old(leaves), index, leaf)
      ensures index == old(|leaves|) && leaf != 0 ==> root.Some?
      ensures root.Some? ==> root.value == NewRoot(hash, old(Kept()), old(leaves), index, leaf)
                             && roots == old(roots) + [RootRow(root.value, index, blockNum, blockPos)]
      ensures Kept() == CacheAfterPut(hash, old(Kept()), old(leaves), index, leaf, root.Some?)
      ensures root.None? ==> Valid() && leaves == old(leaves) && roots == old(roots) && rht == old(rht)
      ensures root.Some? && index == old(|leaves|) && Later(old(roots), blockNum, blockPos) ==>
                Valid() && leaves == old(leaves) + [leaf] && root.value == Root(hash, leaves, height)
      ensures root.Some? && !(index == old(|leaves|) && Later(old(roots), blockNum, blockPos)) ==>
                forall ls :: !Describes(hash, height, roots, rht, ls)
    {
      CacheForFits(hash, Kept(), leaves, index);
      if index != lastIndex + 1 {
        InitCache();
        if index != lastIndex + 1 { return None; }
      }
      root := Extend(blockNum, blockPos, index, leaf);
    }

    /** The part of PutLeaf after the index check. */
    method Extend(blockNum: nat, blockPos: nat, index: nat, leaf: Hash) returns (root: Option<Hash>)
      requires Valid() && index == lastIndex + 1 < Pow2(height)
      modifies this, lastLeft
      ensures root.Some? <==> IsNew(old(roots), PutRoot(hash, old(lastLeft[..]), index, leaf))
      ensures index == old(|leaves|) && leaf != 0 ==> root.Some?
      ensures root.Some? ==> root.value == PutRoot(hash, old(lastLeft[..]), index, leaf)
                             && roots == old(roots) + [RootRow(root.value, index, blockNum, blockPos)]
      ensures Kept() == Cache(if root.Some? then index else index - 1, PutCache(hash, old(lastLeft[..]), index, leaf))
      ensures root.None? ==> Valid() && leaves == old(leaves) && roots == old(roots) && rht == old(rht)
      ensures root.Some? && index == old(|leaves|) && Later(old(roots), blockNum, blockPos) ==>
                Valid() && leaves == old(leaves) + [leaf] && root.value == Root(hash, leaves, height)
      ensures root.Some? && !(index == old(|leaves|) && Later(old(roots), blockNum, blockPos)) ==>
                forall ls :: !Describes(hash, height, roots, rht, ls)
    {
      ghost var cache := lastLeft[..];
      var current, nodes := Climb(index, leaf);
      ghost var row := RootRow(current, index, blockNum, blockPos);
      assert leaves[..|leaves|] == leaves;
      if index == |leaves| { NextPutIsRight(hash, height, roots, rht, leaves, cache, leaf, row); }
      if !IsNew(roots, current) {
        FailedPutFits(hash, leaves, Cache(lastIndex, cache), leaf);
        return None;
      }
      if !(index == |leaves| && Later(roots, blockNum, blockPos)) {
        StrayRow(hash, height, roots, StoreNodes(hash, rht, nodes), leaves, row);
      }
      roots := roots + [RootRow(current, index, blockNum, blockPos)];
      rht := StoreNodes(hash, rht, nodes);
      lastIndex := lastIndex + 1;
      if index == |leaves| {
        leaves := leaves + [leaf];
      }
      return Some(current);
    }

    /** Keep the leaves up to targetIndex; the cached index is not told. */
    method BackwardToIndex(targetIndex: nat)
      requires Valid()
      modifies this`roots, this`leaves
      ensures leaves == if targetIndex + 1 < old(|leaves|) then old(leaves)[..targetIndex + 1] else old(leaves)
      ensures roots == old(roots)[..|leaves|]
      ensures Valid()
    {
      var m := Min(targetIndex + 1, |leaves|);
      FilterKeepsPrefix(roots, (r: RootRow) => r.position <= targetIndex, m);
      DescribesPrefix(hash, height, roots, rht, leaves, m);
      TruncationFits(hash, leaves, Kept(), m);
      roots := Filter(roots, (r: RootRow) => r.position <= targetIndex);
      assert leaves[..|leaves|] == leaves;
      leaves := leaves[..m];
    }

    /** Drop the leaves of the blocks from first on; the cached index is not told. */
    method Reorg(first: nat)
      requires Valid()
      modifies this`roots, this`leaves
      ensures roots == Filter(old(roots), (r: RootRow) => r.blockNum < first)
      ensures |leaves| <= old(|leaves|) && leaves == old(leaves)[..|leaves|] && roots == old(roots)[..|leaves|]
      ensures Valid()
    {
      ghost var m := DroppedRootsAreLast(roots, first);
      FilterKeepsPrefix(roots, (r: RootRow) => r.blockNum < first, m);
      DescribesPrefix(hash, height, roots, rht, leaves, m);
      TruncationFits(hash, leaves, Kept(), m);
      roots := Filter(roots, (r: RootRow) => r.blockNum < first);
      assert leaves[..|leaves|] == leaves;
      leaves := leaves[..m];
    }

    /**
     Two leaves, a truncation to one, and a third leaf at index 2: accepted,
     because the kept cache still expects that index, and no sequence of leaves
     is described by the tables afterwards.
     */
    method PutAfterTruncation(blockNum: nat, blockPos: nat, x: Hash) returns (root: Option<Hash>)
      requires Valid() && |leaves| == 2 && lastIndex == 1 && Pow2(height) > 2 && x != 0
      modifies this, lastLeft
      ensures root == Some(Root(hash, old(leaves) + [x], height))
      ensures forall ls :: !Describes(hash, height, roots, rht, ls)
    {
      assert leaves[..2] == leaves;
      BackwardToIndex(0);
      CacheExpectsIndex(hash, height, roots, rht, old(leaves), lastLeft[..], x);
      root := PutLeaf(blockNum, blockPos, 2, x);
    }

    /**
     Undo a transaction that put `puts` leaves: the tables come back and the
     cached index is taken back by puts, but the cached left siblings stay.
     */
    method Rollback(savedRoots: seq<RootRow>, savedNodes: NodeTable, ghost saved: seq<Hash>, puts: nat)
      requires Injective(hash) && lastLeft.Length == height
      requires Describes(hash, height, savedRoots, savedNodes, saved)
      modifies this`roots, this`rht, this`lastIndex, this`leaves
      ensures roots == savedRoots && rht == savedNodes && leaves == saved && lastIndex == old(lastIndex) - puts
      ensures Kept() == old(Kept()).(lastIndex := old(lastIndex) - puts)
      ensures Valid() <==> CacheFits(hash, leaves, Kept())
    {
      roots, rht, leaves := savedRoots, savedNodes, saved;
      lastIndex := lastIndex - puts;
    }

    /** The siblings of an index on the way down from any root, read from the node table. */
    method GetSiblings(root: Hash, index: nat) returns (proof: seq<Hash>)
      ensures proof == ReadSiblings(hash, rht, root, index, height)
    {
      var siblings := new Hash[height];
      var current := root;
      var zeros := ZeroHashes();
      var level := height;
      ghost var all := ReadSiblings(hash, rht, root, index, height);
      while level > 0
        invariant 0 <= level <= height
        invariant ReadSiblings(hash, rht, current, index, level) == all[..level]
        invariant forall k {:trigger siblings[k]} :: level <= k < height ==> siblings[k] == all[k]
      {
        level := level - 1;
        ReadStep(hash, rht, current, index, level, all);
        if current in rht {
          var node := rht[current];
          siblings[level] := if Bit(index, level) then node.0 else node.1;
          current := if Bit(index, level) then node.1 else node.0;
        } else {
          siblings[level] := zeros[level];
        }
      }
      proof := siblings[..];
    }

    method GetProof(root: Hash, index: nat) returns (proof: seq<Hash>)
      ensures |proof| == height
      ensures Valid() && index < Pow2(height) ==>
                forall m :: 0 < m <= |leaves| && roots[m - 1].hash == root ==> proof == Siblings(hash, leaves[..m], index, height)
      ensures root !in rht ==> ZeroSiblings(hash, proof)
    {
      proof := GetSiblings(root, index);
      if Valid() && index < Pow2(height) {
        forall m | 0 < m <= |leaves| && roots[m - 1].hash == root ensures proof == Siblings(hash, leaves[..m], index, height) {
          StoredRootHasProof(hash, height, roots, rht, leaves, index, m);
        }
      }
      if root !in rht { UnknownRootReadsZeros(hash, rht, root, index, height); }
    }

    method ZeroHashes() returns (zeros: seq<Hash>)
      ensures |zeros| == height + 1
      ensures forall level {:trigger zeros[level]} :: 0 <= level <= height ==> zeros[level] == Zero(hash, level)
    {
      zeros := [0];
      for i := 1 to height + 1
        invariant |zeros| == i
        invariant forall level {:trigger zeros[level]} :: 0 <= level < i ==> zeros[level] == Zero(hash, level)
      {
        zeros := zeros + [hash(zeros[i - 1], zeros[i - 1])];
      }
    }
  }

  /** With the cache of two leaves, the tree of the first alone accepts a third leaf at index 2. */
  lemma CacheExpectsIndex(h: Hasher, height: nat, roots: seq<RootRow>, rht: NodeTable, leaves: seq<Hash>, left: seq<Hash>, x: Hash)
    requires Injective(h) && |leaves| == 2 < Pow2(height) && |left| == height && CacheOk(h, leaves, left) && x != 0
    requires Describes(h, height, roots, rht, leaves[..1])
    ensures Accepts(h, Cache(1, left), roots, leaves[..1], 2, x)
    ensures NewRoot(h, Cache(1, left), leaves[..1], 2, x) == Root(h, leaves + [x], height)
  {
    var all := leaves + [x];
    PutIsRight(h, leaves, left, x);
    assert leaves[..1][..1] == leaves[..1] && all[2] != 0;
    if roots[0].hash == Root(h, all, height) { RootIsBinding(h, leaves[..1], all, height); }
  }
}
