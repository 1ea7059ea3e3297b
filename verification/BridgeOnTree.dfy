/**
 Block processing over the exit tree the syncer really has: tables whose cache
 of left siblings survives a rollback, and whose cached index a truncation does
 not reset. The tree is followed up to the first put that leaves its tables
 describing no leaves any more. BridgePuts says without any hashing which puts
 those are, and RunsStaySoundIff that exactly then the bookkeeping of
 BridgeTables is not that of the code.
 */
module BridgeOnTree {
  import opened Prelude
  import opened BridgeTables
  import opened BridgeAgreement
  import opened BridgePuts
  import BridgeOrder
  import opened MerkleTree
  import opened MerkleProof
  import opened ExitTree
  import opened TransactionRollback

  /** An open transaction: the tables, and what the tree holds besides. */
  datatype Tx = Tx(tables: Tables, work: Work)

  /** Duplicate is the one failure the list of leaves does not have: the computed root is stored already. */
  datatype Outcome = Done(tx: Tx) | Failed(why: Failure, work: Work) | Duplicate(work: Work) | Astray

  // ----- one put -----

  predicate HasRoot(h: Hasher, leaves: seq<Hash>, height: nat, root: Hash) {
    exists i :: 0 < i <= |leaves| && Root(h, leaves[..i], height) == root
  }

  /**
   PutLeaf of the exit tree. An index the cache expects is accepted whether or
   not it is the number of leaves; the transaction goes astray when the stored
   row is not the next one, not the newest, or has a wrong root.
   */
  function PutOnTree(h: Hasher, tx: Tx, index: nat, leaf: Leaf): Outcome {
    var w := tx.work;
    var height := |w.cache.left|;
    var used := CacheFor(h, w.cache, w.leaves, index);
    var root := NewRoot(h, w.cache, w.leaves, index, leaf.hash);
    if index != used.lastIndex + 1 then Failed(InvalidIndex, Refuse(h, w))
    else if HasRoot(h, w.leaves, height, root)
    then Duplicate(w.(cache := CacheAfterPut(h, w.cache, w.leaves, index, leaf.hash, false)))
    else if index != |w.leaves| || !InSequence(tx.tables.tree, leaf) || root != Root(h, w.leaves + [leaf.hash], height)
    then Astray
    else Done(Tx(tx.tables.(tree := tx.tables.tree + [leaf]), Append(h, w, leaf.hash)))
  }

  /** The stored roots carry the positions of the leaves. */
  ghost predicate RowsOf(tree: seq<Leaf>, roots: seq<RootRow>) {
    && |roots| == |tree|
    && forall i :: 0 <= i < |tree| ==> roots[i].blockNum == tree[i].blockNum && roots[i].blockPos == tree[i].blockPos
  }

  /**
   On tables that describe the leaves this is what the tree does: what it
   accepts, which of it is in its place, and the cache it is left with.
   */
  lemma PutOnTreeIsPutLeaf(h: Hasher, roots: seq<RootRow>, rht: NodeTable, tx: Tx, index: nat, leaf: Leaf)
    requires Describes(h, |tx.work.cache.left|, roots, rht, tx.work.leaves)
    requires tx.work.leaves == Hashes(tx.tables.tree) && RowsOf(tx.tables.tree, roots)
    ensures var w := tx.work;
            var o := PutOnTree(h, tx, index, leaf);
            && (o.Done? || o.Astray? <==> Accepts(h, w.cache, roots, w.leaves, index, leaf.hash))
            && (o.Done? ==> o.tx.work.cache == CacheAfterPut(h, w.cache, w.leaves, index, leaf.hash, true))
            && (o.Failed? || o.Duplicate? ==> o.work.cache == CacheAfterPut(h, w.cache, w.leaves, index, leaf.hash, false))
    ensures Injective(h) && CacheFits(h, tx.work.leaves, tx.work.cache) && index < Pow2(|tx.work.cache.left|) ==>
              var w := tx.work;
              PutOnTree(h, tx, index, leaf).Done? <==>
              Accepts(h, w.cache, roots, w.leaves, index, leaf.hash) && index == |w.leaves|
              && Later(roots, leaf.blockNum, leaf.blockPos)
  {
    var w := tx.work;
    var root := NewRoot(h, w.cache, w.leaves, index, leaf.hash);
    RootIsStored(h, roots, rht, w.leaves, |w.cache.left|, root);
    assert InSequence(tx.tables.tree, leaf) <==> Later(roots, leaf.blockNum, leaf.blockPos);
    if Injective(h) && CacheFits(h, w.leaves, w.cache) && index == |w.leaves| < Pow2(|w.cache.left|) {
      CacheForFits(h, w.cache, w.leaves, index);
      PutIsRight(h, w.leaves, CacheFor(h, w.cache, w.leaves, index).left, leaf.hash);
    }
  }

  lemma RootIsStored(h: Hasher, roots: seq<RootRow>, rht: NodeTable, leaves: seq<Hash>, height: nat, root: Hash)
    requires Describes(h, height, roots, rht, leaves)
    ensures HasRoot(h, leaves, height, root) <==> !IsNew(roots, root)
  {
    if !IsNew(roots, root) {
      var i :| 0 <= i < |roots| && roots[i].hash == root;
      assert Root(h, leaves[..i + 1], height) == root;
    }
    if HasRoot(h, leaves, height, root) {
      var i :| 0 < i <= |leaves| && Root(h, leaves[..i], height) == root;
      assert roots[i - 1].hash == root;
    }
  }

  // ----- events -----

  function Proceed(r: Result<Tables>, w: Work): Outcome {
    match r
    case Ok(t) => Done(Tx(t, w))
    case Fail(why) => Failed(why, w)
  }

  function AddOnTree(h: Hasher, c: Chain, tx: Tx, leafBlock: nat, b: Bridge): Outcome {
    var o := PutOnTree(h, tx, b.depositCount, Leaf(c.leafHash(b.leaf), leafBlock, b.blockPos));
    if o.Done? then Proceed(InsertBridge(o.tx.tables, b), o.tx.work) else o
  }

  function AppendOnTree(h: Hasher, c: Chain, tx: Tx, e: ForwardLET, leaves: seq<LeafData>, index: uint32, pos: nat): Outcome
    decreases |leaves|
  {
    if leaves == [] then Done(tx)
    else
      var o := AddOnTree(h, c, tx, e.blockNum, ForwardBridge(tx.tables.archive, e, leaves[0], index, pos));
      if o.Done? then AppendOnTree(h, c, o.tx, e, leaves[1..], NextUint32(index), pos + 1) else o
  }

  /** The root check, against the newest root the tree has stored. */
  predicate MatchesOnTree(h: Hasher, c: Chain, tx: Tx, ler: Hash) {
    var last := if tx.work.leaves == [] then ZERO_HASH else Root(h, tx.work.leaves, |tx.work.cache.left|);
    last == if ler == c.initialLER then ZERO_HASH else ler
  }

  function BackwardOnTree(h: Hasher, c: Chain, tx: Tx, e: BackwardLET): Outcome {
    if !MatchesOnTree(h, c, tx, e.previousRoot) || !FitsUint32(e.newDepositCount) then Failed(Rejected, tx.work)
    else
      var tx1 := Tx(TruncateTo(tx.tables, e.newDepositCount), Truncate(tx.work, e.newDepositCount));
      if !MatchesOnTree(h, c, tx1, e.newRoot) then Failed(Rejected, tx1.work)
      else Proceed(InsertBackward(tx1.tables, e), tx1.work)
  }

  function ForwardOnTree(h: Hasher, c: Chain, tx: Tx, e: ForwardLET, pos: Option<nat>): Outcome {
    if !MatchesOnTree(h, c, tx, e.previousRoot) || e.newLeaves.None? then Failed(Rejected, tx.work)
    else if e.previousRoot != c.initialLER && !FitsUint32(e.previousDepositCount) then Failed(Rejected, tx.work)
    else
      var index := if e.previousRoot != c.initialLER then e.previousDepositCount else 0;
      var o := AppendOnTree(h, c, tx, e, e.newLeaves.value, index, ForwardStart(e, pos));
      if o.Done? then RecordForward(h, c, o.tx, e) else o
  }

  /** The last part of a ForwardLET: its new root, and its own row. */
  function RecordForward(h: Hasher, c: Chain, tx: Tx, e: ForwardLET): Outcome {
    if MatchesOnTree(h, c, tx, e.newRoot) then Proceed(InsertForward(tx.tables, e), tx.work) else Failed(Rejected, tx.work)
  }

  function EventOnTree(h: Hasher, c: Chain, tx: Tx, num: nat, e: Event, pos: Option<nat>): Outcome {
    match e
    case BridgeEvent(b) => AddOnTree(h, c, tx, num, Placed(b, pos))
    case BackwardEvent(l) => BackwardOnTree(h, c, tx, l)
    case ForwardEvent(f) => ForwardOnTree(h, c, tx, f, pos)
  }

  function EventsOnTree(h: Hasher, c: Chain, tx: Tx, num: nat, events: seq<Event>, pos: Option<nat>): Outcome
    decreases |events|
  {
    if events == [] then Done(tx)
    else
      var o := EventOnTree(h, c, tx, num, events[0], pos);
      if o.Done? then EventsOnTree(h, c, o.tx, num, events[1..], NextPos(events[0], pos)) else o
  }

  // ----- blocks and runs -----

  /** The syncer between two blocks, or lost once its tree has gone astray. */
  datatype State = Running(tables: Tables, cache: Cache, halted: bool) | Lost

  function Attempt(h: Hasher, c: Chain, s: State, b: Block): Outcome
    requires s.Running?
  {
    var tx := Tx(s.tables.(blocks := s.tables.blocks + {b.num}), Begin(Hashes(s.tables.tree), s.cache));
    EventsOnTree(h, c, tx, b.num, b.events, None)
  }

  /** One ProcessBlock call. A failed block puts the tables back, and the cache only in part. */
  function ProcessOnTree(h: Hasher, c: Chain, s: State, b: Block): State {
    if s.Lost? || s.halted then s else Settle(s.tables, Attempt(h, c, s, b))
  }

  function Settle(before: Tables, o: Outcome): State {
    match o
    case Astray => Lost
    case Failed(why, w) => Running(before, RolledBack(w), why.InvalidIndex?)
    case Duplicate(w) => Running(before, RolledBack(w), false)
    case Done(tx) => Running(tx.tables, tx.work.cache, false)
  }

  function RunOnTree(h: Hasher, c: Chain, s: State, blocks: seq<Block>): State
    decreases |blocks|
  {
    if blocks == [] then s else RunOnTree(h, c, ProcessOnTree(h, c, s, blocks[0]), blocks[1..])
  }

  // ----- the tree follows the tables -----

  /** The chain's roots are those of the tree, and no leaf hashes to zero. */
  ghost predicate Roots(h: Hasher, c: Chain, height: nat) {
    && Injective(h) && Pow2(height) == TWO_32
    && (forall hashes :: c.rootOf(hashes) == Root(h, hashes, height))
    && (forall data :: c.leafHash(data) != 0)
  }

  /** Table and tree agree, leaves are in order, and the cache is fit for the leaves and for every truncation of them. */
  ghost predicate Sound(h: Hasher, c: Chain, height: nat, s: State) {
    && s.Running? && |s.cache.left| == height
    && Agree(c, s.tables) && InOrder(s.tables.tree)
    && CacheFits(h, Hashes(s.tables.tree), s.cache)
  }

  ghost predicate InTx(h: Hasher, saved: seq<Hash>, height: nat, tx: Tx) {
    && tx.work.leaves == Hashes(tx.tables.tree)
    && InOrder(tx.tables.tree)
    && Within(h, saved, height, tx.work)
  }

  function CountOf(w: Work): Count {
    Count(w.cache.lastIndex, w.puts, w.seen)
  }

  /** What the tree does is decided by the walk over indices and positions. */
  ghost predicate Follows(h: Hasher, saved: seq<Hash>, height: nat, o: Outcome, w: Walk) {
    match o
    case Done(tx) => InTx(h, saved, height, tx) && w == On(tx.tables, CountOf(tx.work))
    case Failed(why, work) => Within(h, saved, height, work) && w == Stopped(why, CountOf(work))
    case Duplicate(work) => Within(h, saved, height, work) && w == Repeated(CountOf(work))
    case Astray => w == Unsafe
  }

  lemma InOrderExtends(tree: seq<Leaf>, leaf: Leaf)
    requires InOrder(tree) && InSequence(tree, leaf)
    ensures InOrder(tree + [leaf])
  {
  }

  /** The siblings a put climbs with. */
  function PutProof(h: Hasher, left: seq<Hash>, index: nat): (r: seq<Hash>)
    ensures |r| == |left|
  {
    seq(|left|, level requires 0 <= level < |left| => if Bit(index, level) then left[level] else Zero(h, level))
  }

  lemma {:induction false} PutClimbs(h: Hasher, left: seq<Hash>, index: nat, leaf: Hash, level: nat)
    requires level <= |left|
    ensures PathNode(h, left, index, leaf, level) == Climb(h, leaf, PutProof(h, left, index), index, level)
  {
    if level > 0 { PutClimbs(h, left, index, leaf, level - 1); }
  }

  /** Whatever the cached siblings are, a stored root comes out only for a leaf that is already there. */
  lemma StoredRootHasLeaf(h: Hasher, leaves: seq<Hash>, left: seq<Hash>, index: nat, leaf: Hash)
    requires Injective(h) && index < Pow2(|left|) && leaf != 0
    requires HasRoot(h, leaves, |left|, PutRoot(h, left, index, leaf))
    ensures index < |leaves| && leaves[index] == leaf
  {
    var i :| 0 < i <= |leaves| && Root(h, leaves[..i], |left|) == PutRoot(h, left, index, leaf);
    PutClimbs(h, left, index, leaf, |left|);
    ProofIsExact(h, leaves[..i], leaf, PutProof(h, left, index), index);
  }

  /** The put at the number of leaves. */
  lemma NextPutFollows(h: Hasher, saved: seq<Hash>, height: nat, tx: Tx, leaf: Leaf)
    requires Injective(h) && InTx(h, saved, height, tx) && |tx.work.leaves| < Pow2(height) && leaf.hash != 0
    ensures Follows(h, saved, height, PutOnTree(h, tx, |tx.work.leaves|, leaf),
                    WalkPut(tx.tables, CountOf(tx.work), |tx.work.leaves|, leaf))
  {
    var w := tx.work;
    var n := |w.leaves|;
    var left := CacheFor(h, w.cache, w.leaves, n).left;
    AppendStaysWithin(h, saved, height, w, leaf.hash);
    PutIsRight(h, w.leaves, left, leaf.hash);
    if HasRoot(h, w.leaves, height, PutRoot(h, left, n, leaf.hash)) {
      StoredRootHasLeaf(h, w.leaves, left, n, leaf.hash);
    }
    if InSequence(tx.tables.tree, leaf) {
      InOrderExtends(tx.tables.tree, leaf);
      assert Hashes(tx.tables.tree + [leaf]) == Hashes(tx.tables.tree) + [leaf.hash];
    }
  }

  /** The put of a leaf that is already there, through a cache behind the tree, meets its own root. */
  lemma RepeatedPut(h: Hasher, saved: seq<Hash>, height: nat, tx: Tx, index: nat, leaf: Leaf)
    requires Injective(h) && InTx(h, saved, height, tx) && index < Pow2(height)
    requires index == tx.work.cache.lastIndex + 1 < |tx.work.leaves| && leaf.hash == tx.work.leaves[index]
    ensures Follows(h, saved, height, PutOnTree(h, tx, index, leaf), Repeated(CountOf(tx.work)))
  {
    var w := tx.work;
    assert w.leaves == saved[..|w.leaves|];
    PutIsRight(h, saved[..index], w.cache.left, leaf.hash);
    assert saved[..index] + [leaf.hash] == w.leaves[..index + 1];
    FailedPutFits(h, saved, w.cache, leaf.hash);
  }

  /** Any other put: refused, unless the cache expects it; then it meets its own root or goes astray. */
  lemma OtherPutFollows(h: Hasher, saved: seq<Hash>, height: nat, tx: Tx, index: nat, leaf: Leaf)
    requires Injective(h) && InTx(h, saved, height, tx) && index < Pow2(height) && leaf.hash != 0
    requires index != |tx.work.leaves|
    ensures Follows(h, saved, height, PutOnTree(h, tx, index, leaf), WalkPut(tx.tables, CountOf(tx.work), index, leaf))
  {
    var w := tx.work;
    if index != w.cache.lastIndex + 1 {
      RefuseStaysWithin(h, saved, height, w);
    } else if index < |w.leaves| && w.leaves[index] == leaf.hash {
      RepeatedPut(h, saved, height, tx, index, leaf);
    } else if HasRoot(h, w.leaves, height, PutRoot(h, w.cache.left, index, leaf.hash)) {
      StoredRootHasLeaf(h, w.leaves, w.cache.left, index, leaf.hash);
    }
  }

  lemma PutFollows(h: Hasher, saved: seq<Hash>, height: nat, tx: Tx, index: nat, leaf: Leaf)
    requires Injective(h) && InTx(h, saved, height, tx) && index < Pow2(height) && leaf.hash != 0
    ensures Follows(h, saved, height, PutOnTree(h, tx, index, leaf), WalkPut(tx.tables, CountOf(tx.work), index, leaf))
  {
    if index == |tx.work.leaves| {
      NextPutFollows(h, saved, height, tx, leaf);
    } else {
      OtherPutFollows(h, saved, height, tx, index, leaf);
    }
  }

  lemma AddFollows(h: Hasher, c: Chain, saved: seq<Hash>, height: nat, tx: Tx, leafBlock: nat, b: Bridge)
    requires Roots(h, c, height) && InTx(h, saved, height, tx)
    ensures Follows(h, saved, height, AddOnTree(h, c, tx, leafBlock, b), WalkAdd(c, tx.tables, CountOf(tx.work), leafBlock, b))
  {
    PutFollows(h, saved, height, tx, b.depositCount, Leaf(c.leafHash(b.leaf), leafBlock, b.blockPos));
  }

  /** One leaf of a ForwardLET, on the tree and on the walk. */
  lemma AppendStep(h: Hasher, c: Chain, tx: Tx, e: ForwardLET, leaves: seq<LeafData>, index: uint32, pos: nat, o: Outcome, w: Walk)
    requires leaves != [] && w.On? == o.Done? && (w.On? ==> w.tables == o.tx.tables && w.count == CountOf(o.tx.work))
    requires var b := ForwardBridge(tx.tables.archive, e, leaves[0], index, pos);
             o == AddOnTree(h, c, tx, e.blockNum, b) && w == WalkAdd(c, tx.tables, CountOf(tx.work), e.blockNum, b)
    ensures AppendOnTree(h, c, tx, e, leaves, index, pos)
            == if o.Done? then AppendOnTree(h, c, o.tx, e, leaves[1..], NextUint32(index), pos + 1) else o
    ensures WalkAppend(c, tx.tables, CountOf(tx.work), e, leaves, index, pos)
            == if o.Done? then WalkAppend(c, o.tx.tables, CountOf(o.tx.work), e, leaves[1..], NextUint32(index), pos + 1) else w
  {
  }

  lemma {:induction false} AppendFollows(
    h: Hasher, c: Chain, saved: seq<Hash>, height: nat, tx: Tx, e: ForwardLET, leaves: seq<LeafData>, index: uint32, pos: nat)
    requires Roots(h, c, height) && InTx(h, saved, height, tx)
    ensures Follows(h, saved, height, AppendOnTree(h, c, tx, e, leaves, index, pos),
                    WalkAppend(c, tx.tables, CountOf(tx.work), e, leaves, index, pos))
    decreases |leaves|
  {
    if leaves != [] {
      var b := ForwardBridge(tx.tables.archive, e, leaves[0], index, pos);
      AddFollows(h, c, saved, height, tx, e.blockNum, b);
      var o := AddOnTree(h, c, tx, e.blockNum, b);
      AppendStep(h, c, tx, e, leaves, index, pos, o, WalkAdd(c, tx.tables, CountOf(tx.work), e.blockNum, b));
      if o.Done? { AppendFollows(h, c, saved, height, o.tx, e, leaves[1..], NextUint32(index), pos + 1); }
    }
  }

  lemma MatchFollows(h: Hasher, c: Chain, saved: seq<Hash>, height: nat, tx: Tx, ler: Hash)
    requires Roots(h, c, height) && InTx(h, saved, height, tx)
    ensures MatchesOnTree(h, c, tx, ler) == MatchesLER(c, tx.tables, ler)
  {
    assert tx.tables.tree == [] <==> tx.work.leaves == [];
  }

  lemma BackwardFollows(h: Hasher, c: Chain, saved: seq<Hash>, height: nat, tx: Tx, e: BackwardLET)
    requires Roots(h, c, height) && InTx(h, saved, height, tx)
    ensures Follows(h, saved, height, BackwardOnTree(h, c, tx, e), Continue(ApplyBackward(c, tx.tables, e), CountOf(tx.work)))
  {
    MatchFollows(h, c, saved, height, tx, e.previousRoot);
    if FitsUint32(e.newDepositCount) {
      var n := e.newDepositCount;
      var tx1 := Tx(TruncateTo(tx.tables, n), Truncate(tx.work, n));
      TruncateStaysWithin(h, saved, height, tx.work, n);
      assert tx1.work.leaves == Hashes(tx1.tables.tree);
      MatchFollows(h, c, saved, height, tx1, e.newRoot);
    }
  }

  lemma RecordFollows(h: Hasher, c: Chain, saved: seq<Hash>, height: nat, tx: Tx, e: ForwardLET)
    requires Roots(h, c, height) && InTx(h, saved, height, tx)
    ensures Follows(h, saved, height, RecordForward(h, c, tx, e),
                    Continue(if MatchesLER(c, tx.tables, e.newRoot) then InsertForward(tx.tables, e) else Fail(Rejected),
                             CountOf(tx.work)))
  {
    MatchFollows(h, c, saved, height, tx, e.newRoot);
  }

  lemma ForwardFollows(h: Hasher, c: Chain, saved: seq<Hash>, height: nat, tx: Tx, e: ForwardLET, pos: Option<nat>)
    requires Roots(h, c, height) && InTx(h, saved, height, tx)
    ensures Follows(h, saved, height, ForwardOnTree(h, c, tx, e, pos), WalkForward(c, tx.tables, CountOf(tx.work), e, pos))
  {
    MatchFollows(h, c, saved, height, tx, e.previousRoot);
    if e.newLeaves.Some? && (e.previousRoot == c.initialLER || FitsUint32(e.previousDepositCount)) {
      var index := if e.previousRoot != c.initialLER then e.previousDepositCount else 0;
      var o := AppendOnTree(h, c, tx, e, e.newLeaves.value, index, ForwardStart(e, pos));
      AppendFollows(h, c, saved, height, tx, e, e.newLeaves.value, index, ForwardStart(e, pos));
      if o.Done? { RecordFollows(h, c, saved, height, o.tx, e); }
    }
  }

  lemma EventFollows(h: Hasher, c: Chain, saved: seq<Hash>, height: nat, tx: Tx, num: nat, e: Event, pos: Option<nat>)
    requires Roots(h, c, height) && InTx(h, saved, height, tx)
    ensures Follows(h, saved, height, EventOnTree(h, c, tx, num, e, pos), WalkEvent(c, tx.tables, CountOf(tx.work), num, e, pos))
  {
    match e
    case BridgeEvent(b) => AddFollows(h, c, saved, height, tx, num, Placed(b, pos));
    case BackwardEvent(l) => BackwardFollows(h, c, saved, height, tx, l);
    case ForwardEvent(f) => ForwardFollows(h, c, saved, height, tx, f, pos);
  }

  lemma {:induction false} EventsFollow(
    h: Hasher, c: Chain, saved: seq<Hash>, height: nat, tx: Tx, num: nat, events: seq<Event>, pos: Option<nat>)
    requires Roots(h, c, height) && InTx(h, saved, height, tx)
    ensures Follows(h, saved, height, EventsOnTree(h, c, tx, num, events, pos),
                    WalkEvents(c, tx.tables, CountOf(tx.work), num, events, pos))
    decreases |events|
  {
    if events != [] {
      EventFollows(h, c, saved, height, tx, num, events[0], pos);
      var o := EventOnTree(h, c, tx, num, events[0], pos);
      if o.Done? { EventsFollow(h, c, saved, height, o.tx, num, events[1..], NextPos(events[0], pos)); }
    }
  }

  /** A block on the tree ends as its walk does, and so as the block on lists unless a put is unsafe. */
  lemma AttemptFollows(h: Hasher, c: Chain, height: nat, s: State, b: Block)
    requires Roots(h, c, height) && Sound(h, c, height, s)
    ensures var w := WalkBlock(c, s.tables, s.cache.lastIndex, b);
            && Follows(h, Hashes(s.tables.tree), height, Attempt(h, c, s, b), w)
            && Walks(w, ApplyBlock(c, s.tables, b))
  {
    var saved := Hashes(s.tables.tree);
    BeginIsWithin(h, saved, s.cache);
    var t := s.tables.(blocks := s.tables.blocks + {b.num});
    EventsFollow(h, c, saved, height, Tx(t, Begin(saved, s.cache)), b.num, b.events, None);
    BlockWalks(c, s.tables, s.cache.lastIndex, b);
  }

  // ----- when the tree stays sound -----

  /** What the bookkeeping on lists keeps of a state. */
  function Syncing(s: State): Syncer
    requires s.Running?
  {
    Syncer(s.tables, s.halted)
  }

  function LedgerOf(s: State): Ledger
    requires s.Running?
  {
    Ledger(s.tables, s.cache.lastIndex, s.halted)
  }

  /** The tree stays sound and the syncer does what it does on lists. */
  ghost predicate StaysSound(h: Hasher, c: Chain, height: nat, s: State, b: Block)
    requires s.Running?
  {
    var s' := ProcessOnTree(h, c, s, b);
    Sound(h, c, height, s') && Syncing(s') == ProcessBlock(c, Syncing(s), b)
  }

  lemma HaltedBlockIsSound(h: Hasher, c: Chain, height: nat, s: State, b: Block)
    requires Sound(h, c, height, s) && s.halted
    ensures StaysSound(h, c, height, s, b) && LedgerOf(ProcessOnTree(h, c, s, b)) == AfterBlock(c, LedgerOf(s), b)
  {
  }

  /** A block whose walk gets to its end is committed. */
  lemma CommittedBlockIsSound(h: Hasher, c: Chain, height: nat, s: State, b: Block, tx: Tx)
    requires Roots(h, c, height) && Sound(h, c, height, s) && !s.halted && Attempt(h, c, s, b) == Done(tx)
    requires InTx(h, Hashes(s.tables.tree), height, tx) && ApplyBlock(c, s.tables, b) == Ok(tx.tables)
    ensures StaysSound(h, c, height, s, b)
  {
    EventsAgree(c, s.tables.(blocks := s.tables.blocks + {b.num}), b.num, b.events, None);
    WithinFits(h, Hashes(s.tables.tree), height, tx.work);
  }

  lemma RollbackDecides(h: Hasher, c: Chain, height: nat, s: State, b: Block, why: Failure, w: Work)
    requires Sound(h, c, height, s) && !s.halted && Attempt(h, c, s, b) == Failed(why, w) && |w.cache.left| == height
    requires ApplyBlock(c, s.tables, b) == Fail(why)
    ensures StaysSound(h, c, height, s, b) <==> CacheFits(h, Hashes(s.tables.tree), RolledBack(w))
  {
  }

  /** A block whose walk is stopped fails, and the rollback decides. */
  lemma FailedBlockIsSound(h: Hasher, c: Chain, height: nat, s: State, b: Block, why: Failure, w: Work)
    requires Injective(h) && Sound(h, c, height, s) && !s.halted && Attempt(h, c, s, b) == Failed(why, w)
    requires Within(h, Hashes(s.tables.tree), height, w) && ApplyBlock(c, s.tables, b) == Fail(why)
    ensures FewTakenBack(CountOf(w)) ==> StaysSound(h, c, height, s, b)
    ensures NoRepeats(w.seen) ==> (StaysSound(h, c, height, s, b) <==> FewTakenBack(CountOf(w)))
  {
    RollbackDecides(h, c, height, s, b, why, w);
    RollbackFitsIff(h, Hashes(s.tables.tree), height, w);
  }

  /** On a repeated leaf the list halts and the tree does not. */
  lemma RepeatedBlockIsNotSound(h: Hasher, c: Chain, height: nat, s: State, b: Block, w: Work)
    requires s.Running? && !s.halted && Attempt(h, c, s, b) == Duplicate(w) && ApplyBlock(c, s.tables, b) == Fail(InvalidIndex)
    ensures !StaysSound(h, c, height, s, b)
  {
  }

  lemma LedgerFollows(h: Hasher, c: Chain, height: nat, s: State, b: Block, saved: seq<Hash>)
    requires s.Running? && !s.halted
    requires var w := WalkBlock(c, s.tables, s.cache.lastIndex, b);
             (w.On? || w.Stopped?) && Follows(h, saved, height, Attempt(h, c, s, b), w)
    ensures ProcessOnTree(h, c, s, b).Running?
    ensures LedgerOf(ProcessOnTree(h, c, s, b)) == AfterBlock(c, LedgerOf(s), b)
  {
  }

  lemma HarmlessBlockStaysSound(h: Hasher, c: Chain, height: nat, s: State, b: Block)
    requires Roots(h, c, height) && Sound(h, c, height, s) && Harmless(c, LedgerOf(s), b)
    ensures StaysSound(h, c, height, s, b) && LedgerOf(ProcessOnTree(h, c, s, b)) == AfterBlock(c, LedgerOf(s), b)
  {
    if s.halted {
      HaltedBlockIsSound(h, c, height, s, b);
    } else {
      AttemptFollows(h, c, height, s, b);
      LedgerFollows(h, c, height, s, b, Hashes(s.tables.tree));
      var o := Attempt(h, c, s, b);
      if o.Done? {
        CommittedBlockIsSound(h, c, height, s, b, o.tx);
      } else {
        FailedBlockIsSound(h, c, height, s, b, o.why, o.work);
      }
    }
  }

  /** A block keeps the tree sound and the syncer on its course if it is harmless and, with different leaves, only then. */
  lemma BlockStaysSoundIff(h: Hasher, c: Chain, height: nat, s: State, b: Block)
    requires Roots(h, c, height) && Sound(h, c, height, s) && Distinguishable(c, LedgerOf(s), b)
    ensures StaysSound(h, c, height, s, b) <==> Harmless(c, LedgerOf(s), b)
  {
    if Harmless(c, LedgerOf(s), b) {
      HarmlessBlockStaysSound(h, c, height, s, b);
    } else {
      AttemptFollows(h, c, height, s, b);
      HarmfulBlock(h, c, height, s, b, Attempt(h, c, s, b), WalkBlock(c, s.tables, s.cache.lastIndex, b));
    }
  }

  lemma HarmfulBlock(h: Hasher, c: Chain, height: nat, s: State, b: Block, o: Outcome, w: Walk)
    requires Roots(h, c, height) && Sound(h, c, height, s) && !s.halted && o == Attempt(h, c, s, b)
    requires Follows(h, Hashes(s.tables.tree), height, o, w) && Walks(w, ApplyBlock(c, s.tables, b)) && LeavesDiffer(w)
    requires w.Unsafe? || w.Repeated? || (w.Stopped? && !FewTakenBack(w.count))
    ensures !StaysSound(h, c, height, s, b)
  {
    match o
    case Failed(why, work) => FailedBlockIsSound(h, c, height, s, b, why, work);
    case Duplicate(work) => RepeatedBlockIsNotSound(h, c, height, s, b, work);
    case Astray =>
  }

  // ----- whole runs -----

  ghost predicate AllStaySound(h: Hasher, c: Chain, height: nat, s: State, blocks: seq<Block>)
    decreases |blocks|
  {
    blocks != [] ==> s.Running? && StaysSound(h, c, height, s, blocks[0])
                     && AllStaySound(h, c, height, ProcessOnTree(h, c, s, blocks[0]), blocks[1..])
  }

  /** Over harmless blocks the code's tables are those of the bookkeeping on lists, and agree with its tree. */
  lemma {:induction false} HarmlessRunsAgree(h: Hasher, c: Chain, height: nat, s: State, blocks: seq<Block>)
    requires Roots(h, c, height) && Sound(h, c, height, s) && AllHarmless(c, LedgerOf(s), blocks)
    ensures var s' := RunOnTree(h, c, s, blocks);
            Sound(h, c, height, s') && Syncing(s') == ProcessBlocks(c, Syncing(s), blocks)
    decreases |blocks|
  {
    if blocks != [] {
      HarmlessBlockStaysSound(h, c, height, s, blocks[0]);
      HarmlessRunsAgree(h, c, height, ProcessOnTree(h, c, s, blocks[0]), blocks[1..]);
    }
  }

  /** Over a run of blocks the tree stays sound after each if and only if each is harmless when its turn comes. */
  lemma {:induction false} RunsStaySoundIff(h: Hasher, c: Chain, height: nat, s: State, blocks: seq<Block>)
    requires Roots(h, c, height) && Sound(h, c, height, s) && AllDistinguishable(c, LedgerOf(s), blocks)
    ensures AllStaySound(h, c, height, s, blocks) <==> AllHarmless(c, LedgerOf(s), blocks)
    decreases |blocks|
  {
    if blocks != [] {
      BlockStaysSoundIff(h, c, height, s, blocks[0]);
      if Harmless(c, LedgerOf(s), blocks[0]) {
        HarmlessBlockStaysSound(h, c, height, s, blocks[0]);
        RunsStaySoundIff(h, c, height, ProcessOnTree(h, c, s, blocks[0]), blocks[1..]);
      }
    }
  }

  /** An empty database with a tree that has read nothing yet. */
  function Fresh(left: seq<Hash>): State {
    Running(EMPTY_TABLES, Cache(-2, left), false)
  }

  lemma FreshIsSound(h: Hasher, c: Chain, left: seq<Hash>)
    ensures Sound(h, c, |left|, Fresh(left))
  {
  }

  // ----- ordinary runs -----

  /** A well-formed block that commits on lists commits on the tree, with the same tables. */
  lemma CommittedBlockStaysSound(h: Hasher, c: Chain, height: nat, s: State, b: Block)
    requires Roots(h, c, height) && Sound(h, c, height, s) && !s.halted && BridgeOrder.Good(c, s.tables)
    requires BridgeOrder.WellFormedBlock(c, s.tables, b) && ApplyBlock(c, s.tables, b).Ok?
    ensures var s' := ProcessOnTree(h, c, s, b);
            && Attempt(h, c, s, b).Done? && Sound(h, c, height, s')
            && !s'.halted && s'.tables == ApplyBlock(c, s.tables, b).value && BridgeOrder.Good(c, s'.tables)
  {
    CommittedBlockIsHarmless(c, LedgerOf(s), b);
    AttemptFollows(h, c, height, s, b);
    HarmlessBlockStaysSound(h, c, height, s, b);
    BridgeOrder.BlockGood(c, s.tables, b);
  }

  lemma {:induction false} CommittedBlocksStaySound(h: Hasher, c: Chain, height: nat, s: State, blocks: seq<Block>)
    requires Roots(h, c, height) && Sound(h, c, height, s) && !s.halted && BridgeOrder.Good(c, s.tables)
    requires BridgeOrder.WellFormedRun(c, s.tables, blocks) && BridgeOrder.ApplyBlocks(c, s.tables, blocks).Ok?
    ensures var s' := RunOnTree(h, c, s, blocks);
            && Sound(h, c, height, s') && !s'.halted
            && s'.tables == BridgeOrder.ApplyBlocks(c, s.tables, blocks).value && BridgeOrder.Good(c, s'.tables)
    decreases |blocks|
  {
    if blocks != [] {
      CommittedBlockStaysSound(h, c, height, s, blocks[0]);
      CommittedBlocksStaySound(h, c, height, ProcessOnTree(h, c, s, blocks[0]), blocks[1..]);
    }
  }

  /**
   From an empty database, every well-formed run that commits on lists commits
   on the tree: the same tables, row and leaf in agreement, and a fit cache.
   */
  lemma CommittedRunsAgree(h: Hasher, c: Chain, left: seq<Hash>, blocks: seq<Block>)
    requires Roots(h, c, |left|)
    requires BridgeOrder.WellFormedRun(c, EMPTY_TABLES, blocks) && BridgeOrder.ApplyBlocks(c, EMPTY_TABLES, blocks).Ok?
    ensures var s' := RunOnTree(h, c, Fresh(left), blocks);
            && Sound(h, c, |left|, s') && !s'.halted
            && s'.tables == BridgeOrder.ApplyBlocks(c, EMPTY_TABLES, blocks).value && BridgeOrder.Good(c, s'.tables)
  {
    FreshIsSound(h, c, left);
    CommittedBlocksStaySound(h, c, |left|, Fresh(left), blocks);
  }
}
