/**
 Two runs on which the tree does not stay sound: a failed block that is
 replaced after a reorg, and a deposit count only the cache expects.
 */
module BridgeOnTreeLimits {
  import opened Prelude
  import opened BridgeTables
  import opened BridgeAgreement
  import opened BridgePuts
  import opened MerkleTree
  import opened ExitTree
  import opened TransactionRollback
  import opened BridgeOnTree
  import opened BridgeRuns
  import opened BridgeReorgOnTree

  function Exit(num: nat, index: uint32, data: LeafData): Bridge {
    Bridge(num, index, data, index, 0, 0, None, 0, 0, Live)
  }

  function LeafOf(c: Chain, b: Bridge): Leaf {
    Leaf(c.leafHash(b.leaf), b.blockNum, b.blockPos)
  }

  /** A bridge with the next deposit count and a new place is added to table and tree. */
  lemma NextExitIsAdded(h: Hasher, c: Chain, saved: seq<Hash>, height: nat, tx: Tx, b: Bridge)
    requires Roots(h, c, height) && InTx(h, saved, height, tx) && b.depositCount == |tx.tables.tree|
    requires InSequence(tx.tables.tree, LeafOf(c, b)) && InsertBridge(tx.tables, b).Ok?
    ensures var tx1 := Tx(tx.tables.(bridge := tx.tables.bridge + [b], tree := tx.tables.tree + [LeafOf(c, b)]),
                          Append(h, tx.work, c.leafHash(b.leaf)));
            AddOnTree(h, c, tx, b.blockNum, b) == Done(tx1) && InTx(h, saved, height, tx1)
    ensures AddBridge(c, tx.tables, b.blockNum, b).Ok?
  {
    NextPutFollows(h, saved, height, tx, LeafOf(c, b));
  }

  function OneLeaf(c: Chain, a: LeafData): Tables {
    Tables({1}, [Exit(1, 0, a)], map[], [], [], [LeafOf(c, Exit(1, 0, a))])
  }

  /** A state with one leaf and any cache that fits it. */
  ghost predicate HasOneLeaf(h: Hasher, c: Chain, height: nat, a: LeafData, s: State) {
    Sound(h, c, height, s) && s.tables == OneLeaf(c, a) && !s.halted
  }

  /** Two more exits in block 2, and perhaps a BackwardLET whose new count does not fit, which fails the block. */
  function TwoMore(x: LeafData, y: LeafData, fails: bool): Block {
    var bad := BackwardEvent(BackwardLET(2, 9, 3, 0, TWO_32, 0));
    Block(2, [BridgeEvent(Exit(2, 1, x)), BridgeEvent(Exit(2, 2, y))] + if fails then [bad] else [])
  }

  /** The two exits are put whatever follows them. */
  lemma TwoMoreArePut(h: Hasher, c: Chain, height: nat, a: LeafData, x: LeafData, y: LeafData, s: State, fails: bool)
    requires Roots(h, c, height) && HasOneLeaf(h, c, height, a, s)
    ensures var w := Append(h, Append(h, Begin(Hashes(s.tables.tree), s.cache), c.leafHash(x)), c.leafHash(y));
            var o := Attempt(h, c, s, TwoMore(x, y, fails));
            if fails then o == Failed(Rejected, w) else o.Done? && o.tx.work == w
  {
    var saved := Hashes(s.tables.tree);
    var b := TwoMore(x, y, fails);
    var tx0 := Tx(s.tables.(blocks := s.tables.blocks + {2}), Begin(saved, s.cache));
    BeginIsWithin(h, saved, s.cache);
    NextExitIsAdded(h, c, saved, height, tx0, Exit(2, 1, x));
    var tx1 := AddOnTree(h, c, tx0, 2, Exit(2, 1, x)).tx;
    NextExitIsAdded(h, c, saved, height, tx1, Exit(2, 2, y));
    var tx2 := AddOnTree(h, c, tx1, 2, Exit(2, 2, y)).tx;
    UnfoldTwo(h, c, tx0, tx1, tx2, b);
    if fails {
      assert b.events[2..] == [b.events[2]] && [b.events[2]][1..] == [];
    } else {
      assert b.events[2..] == [];
    }
  }

  lemma UnfoldTwo(h: Hasher, c: Chain, tx0: Tx, tx1: Tx, tx2: Tx, b: Block)
    requires |b.events| >= 2 && b.events[0].BridgeEvent? && b.events[1].BridgeEvent?
    requires AddOnTree(h, c, tx0, b.num, b.events[0].bridge) == Done(tx1)
    requires AddOnTree(h, c, tx1, b.num, b.events[1].bridge) == Done(tx2)
    ensures EventsOnTree(h, c, tx0, b.num, b.events, None) == EventsOnTree(h, c, tx2, b.num, b.events[2..], None)
  {
    assert b.events[1..][0] == b.events[1] && b.events[1..][1..] == b.events[2..];
    assert EventsOnTree(h, c, tx0, b.num, b.events, None) == EventsOnTree(h, c, tx1, b.num, b.events[1..], None);
  }

  /** A cache whose lowest entry is y is that of the one leaf y. */
  lemma LowestEntryDecides(h: Hasher, y: Hash, left: seq<Hash>)
    requires left != [] && left[0] == y
    ensures CacheOk(h, [y], left)
  {
    forall level {:trigger left[level]} | 0 <= level < |left| && Bit(1, level)
      ensures left[level] == LeftOfPath(h, [y], level)
    {
      if level > 0 {
        ShiftHalf(1, level - 1);
        ShiftOfZero(level - 1);
      }
    }
  }

  lemma RootBindsFirst(h: Hasher, p: seq<Hash>, q: seq<Hash>, height: nat)
    requires Injective(h) && 0 < |p| == |q| <= Pow2(height) && Root(h, p, height) == Root(h, q, height)
    ensures p[0] == q[0]
  {
    RootIsBinding(h, p, q, height);
  }

  /** The put at index 1, beside a sibling y that is not the leaf a, gets the root of y and x. */
  lemma WrongSiblingGoesAstray(h: Hasher, height: nat, tx: Tx, a: Hash, y: Hash, leaf: Leaf)
    requires Injective(h) && 2 <= Pow2(height) && a != y && leaf.hash != 0
    requires tx.work.leaves == [a] && tx.work.cache.lastIndex == 0
    requires |tx.work.cache.left| == height > 0 && tx.work.cache.left[0] == y
    ensures NewRoot(h, tx.work.cache, [a], 1, leaf.hash) == Root(h, [y, leaf.hash], height)
    ensures PutOnTree(h, tx, 1, leaf) == Astray
  {
    var left := tx.work.cache.left;
    LowestEntryDecides(h, y, left);
    PutIsRight(h, [y], left, leaf.hash);
    assert [y] + [leaf.hash] == [y, leaf.hash] && [a] + [leaf.hash] == [a, leaf.hash];
    if Root(h, [y, leaf.hash], height) == Root(h, [a, leaf.hash], height) {
      RootBindsFirst(h, [y, leaf.hash], [a, leaf.hash], height);
    }
    if HasRoot(h, [a], height, PutRoot(h, left, 1, leaf.hash)) {
      StoredRootHasLeaf(h, [a], left, 1, leaf.hash);
    }
  }

  /** What the failed block leaves: the tables of before, and the second exit as the cached left sibling of the first. */
  ghost predicate Spoilt(h: Hasher, c: Chain, height: nat, a: LeafData, y: LeafData, s: State) {
    && s.Running? && !s.halted && s.tables == OneLeaf(c, a)
    && s.cache.lastIndex == 0 && |s.cache.left| == height > 0 && s.cache.left[0] == c.leafHash(y)
  }

  lemma FailedBlockSpoils(h: Hasher, c: Chain, height: nat, a: LeafData, x: LeafData, y: LeafData, s: State)
    requires Roots(h, c, height) && HasOneLeaf(h, c, height, a, s)
    ensures Spoilt(h, c, height, a, y, ProcessOnTree(h, c, s, TwoMore(x, y, true)))
  {
    TwoMoreArePut(h, c, height, a, x, y, s, true);
    AttemptFollows(h, c, height, s, TwoMore(x, y, true));
    var w := Attempt(h, c, s, TwoMore(x, y, true)).work;
    assert Hashes(s.tables.tree) == [c.leafHash(a)];
    assert w.seen == [c.leafHash(a), c.leafHash(x), c.leafHash(y)];
    assert FullLeft(h, w.seen, w.cache.left);
    assert height > 0;
    assert w.cache.left[0] == Node(h, w.seen, 0, 2 * Shift(2, 1));
  }

  /** On a spoilt tree the block with the two exits alone goes astray at the first of them. */
  lemma ReplacementGoesAstray(h: Hasher, c: Chain, height: nat, a: LeafData, x: LeafData, y: LeafData, s: State)
    requires Roots(h, c, height) && Spoilt(h, c, height, a, y, s) && c.leafHash(a) != c.leafHash(y)
    ensures NewRoot(h, s.cache, [c.leafHash(a)], 1, c.leafHash(x)) == Root(h, [c.leafHash(y), c.leafHash(x)], height)
    ensures Attempt(h, c, s, TwoMore(x, y, false)) == Astray
  {
    var b := TwoMore(x, y, false);
    assert Hashes(s.tables.tree) == [c.leafHash(a)];
    var tx := Tx(s.tables.(blocks := s.tables.blocks + {2}), Begin(Hashes(s.tables.tree), s.cache));
    WrongSiblingGoesAstray(h, height, tx, c.leafHash(a), c.leafHash(y), LeafOf(c, Exit(2, 1, x)));
    assert EventOnTree(h, c, tx, 2, b.events[0], None) == Astray;
  }

  /** On lists the first block is rejected and the second committed. */
  lemma TwoMoreOnLists(h: Hasher, c: Chain, height: nat, a: LeafData, x: LeafData, y: LeafData, s: State)
    requires Roots(h, c, height) && HasOneLeaf(h, c, height, a, s)
    ensures ApplyBlock(c, s.tables, TwoMore(x, y, true)) == Fail(Rejected)
    ensures var r := ApplyBlock(c, s.tables, TwoMore(x, y, false)); r.Ok? && |r.value.tree| == 3
  {
    TwoMoreArePut(h, c, height, a, x, y, s, true);
    TwoMoreArePut(h, c, height, a, x, y, s, false);
    AttemptFollows(h, c, height, s, TwoMore(x, y, true));
    AttemptFollows(h, c, height, s, TwoMore(x, y, false));
  }

  /**
   One leaf is committed. Block 2 puts two more exits and fails. The same block
   without the failing event would be fine on a list of leaves, but the tree
   hashes its first exit with the rolled-back second one.
   */
  lemma RolledBackLeafIsHashedIn(h: Hasher, c: Chain, height: nat, a: LeafData, x: LeafData, y: LeafData, s: State)
    requires Roots(h, c, height) && HasOneLeaf(h, c, height, a, s) && c.leafHash(a) != c.leafHash(y)
    ensures var s' := ProcessOnTree(h, c, s, TwoMore(x, y, true));
            && Spoilt(h, c, height, a, y, s') && !Sound(h, c, height, s')
            && ApplyBlock(c, s'.tables, TwoMore(x, y, false)).Ok?
            && Attempt(h, c, s', TwoMore(x, y, false)) == Astray
            && NewRoot(h, s'.cache, [c.leafHash(a)], 1, c.leafHash(x)) == Root(h, [c.leafHash(y), c.leafHash(x)], height)
  {
    FailedBlockSpoils(h, c, height, a, x, y, s);
    var s' := ProcessOnTree(h, c, s, TwoMore(x, y, true));
    ReplacementGoesAstray(h, c, height, a, x, y, s');
    TwoMoreOnLists(h, c, height, a, x, y, s);
    assert Bit(1, 0) && LeftOfPath(h, Hashes(s'.tables.tree), 0) == c.leafHash(a);
  }

  /** A reorg over one leaf in block 1 has nothing to drop and does not touch the cache. */
  lemma PurgeKeepsCache(h: Hasher, c: Chain, height: nat, a: LeafData, y: LeafData, s: State)
    requires Spoilt(h, c, height, a, y, s)
    ensures ReorgOnTree(h, c, s, 2) == s && ApplyReorg(c, s.tables, 2) == Ok(s.tables)
  {
    var t := s.tables;
    FilterKeepsPrefix(t.bridge, (b: Bridge) => b.blockNum < 2, 1);
    FilterKeepsPrefix(t.tree, (l: Leaf) => l.blockNum < 2, 1);
    assert t.bridge[..1] == t.bridge && t.tree[..1] == t.tree;
    assert (set n | n in t.blocks && n < 2) == t.blocks;
    assert DropBlocks(t, 2) == t;
  }

  /**
   The run in which a tip reorg goes undetected: block 2 fails, the purge from
   block 2 on finds nothing to delete, and the block 2 that replaces it loses
   the tree, while on a list of leaves it is committed.
   */
  lemma PurgeDoesNotRepair(h: Hasher, c: Chain, height: nat, a: LeafData, x: LeafData, y: LeafData, s: State)
    requires Roots(h, c, height) && HasOneLeaf(h, c, height, a, s) && c.leafHash(a) != c.leafHash(y)
    ensures var steps := [Process(TwoMore(x, y, true)), Purge(2), Process(TwoMore(x, y, false))];
            && StepsOnTree(h, c, s, steps) == Lost
            && |StepsSyncer(c, Syncing(s), steps).tables.tree| == 3 && !StepsSyncer(c, Syncing(s), steps).halted
  {
    var bad, good := TwoMore(x, y, true), TwoMore(x, y, false);
    FailedBlockSpoils(h, c, height, a, x, y, s);
    var s1 := ProcessOnTree(h, c, s, bad);
    PurgeKeepsCache(h, c, height, a, y, s1);
    ReplacementGoesAstray(h, c, height, a, x, y, s1);
    TwoMoreOnLists(h, c, height, a, x, y, s);
    ThreeSteps(h, c, s, Process(bad), Purge(2), Process(good), Syncing(s));
  }

  lemma ThreeSteps(h: Hasher, c: Chain, s: State, p: Step, q: Step, r: Step, l: Syncer)
    ensures StepsOnTree(h, c, s, [p, q, r]) == StepOnTree(h, c, StepOnTree(h, c, StepOnTree(h, c, s, p), q), r)
    ensures StepsSyncer(c, l, [p, q, r]) == StepSyncer(c, StepSyncer(c, StepSyncer(c, l, p), q), r)
  {
    var s1, l1 := StepOnTree(h, c, s, p), StepSyncer(c, l, p);
    var s2, l2 := StepOnTree(h, c, s1, q), StepSyncer(c, l1, q);
    FirstStep(h, c, s, p, [q, r], l);
    FirstStep(h, c, s1, q, [r], l1);
    FirstStep(h, c, s2, r, [], l2);
    assert [p] + [q, r] == [p, q, r] && [q] + [r] == [q, r] && [r] + [] == [r];
  }

  lemma FirstStep(h: Hasher, c: Chain, s: State, p: Step, rest: seq<Step>, l: Syncer)
    ensures StepsOnTree(h, c, s, [p] + rest) == StepsOnTree(h, c, StepOnTree(h, c, s, p), rest)
    ensures StepsSyncer(c, l, [p] + rest) == StepsSyncer(c, StepSyncer(c, l, p), rest)
  {
    assert ([p] + rest)[1..] == rest;
  }

  /** After a truncation under it, the cache still expects the old next index. */
  ghost predicate CutToOne(h: Hasher, c: Chain, height: nat, a: LeafData, x: LeafData, s: State) {
    && Sound(h, c, height, s) && !s.halted
    && s.tables.tree == [LeafOf(c, Exit(1, 0, a))]
    && s.cache.lastIndex == 1 && FullLeft(h, [c.leafHash(a), c.leafHash(x)], s.cache.left)
  }

  /** Back from two leaves to one. */
  function BackToOne(c: Chain, a: LeafData, x: LeafData): BackwardLET {
    BackwardLET(2, 0, 2, c.rootOf([c.leafHash(a), c.leafHash(x)]), 1, c.rootOf([c.leafHash(a)]))
  }

  function TwoLeaves(c: Chain, a: LeafData, x: LeafData): Tables {
    Tables({1}, [Exit(1, 0, a), Exit(1, 1, x)], map[], [], [], [LeafOf(c, Exit(1, 0, a)), LeafOf(c, Exit(1, 1, x))])
  }

  /** A committed BackwardLET is harmless, and leaves the cache expecting index 2. */
  lemma BackwardLeavesCache(h: Hasher, c: Chain, height: nat, a: LeafData, x: LeafData, s: State)
    requires Roots(h, c, height) && Sound(h, c, height, s) && !s.halted && s.tables == TwoLeaves(c, a, x)
    requires s.cache.lastIndex == 1 && FullLeft(h, Hashes(s.tables.tree), s.cache.left)
    requires c.initialLER != c.rootOf([c.leafHash(a), c.leafHash(x)]) && c.initialLER != c.rootOf([c.leafHash(a)])
    ensures CutToOne(h, c, height, a, x, ProcessOnTree(h, c, s, Block(2, [BackwardEvent(BackToOne(c, a, x))])))
  {
    var b := Block(2, [BackwardEvent(BackToOne(c, a, x))]);
    var saved := Hashes(s.tables.tree);
    var tx0 := Tx(s.tables.(blocks := s.tables.blocks + {2}), Begin(saved, s.cache));
    var tx1 := BackwardIsDone(h, c, height, a, x, tx0);
    OnlyEvent(h, c, tx0, tx1, b);
    AttemptFollows(h, c, height, s, b);
    HarmlessBlockStaysSound(h, c, height, s, b);
  }

  lemma OnlyEvent(h: Hasher, c: Chain, tx0: Tx, tx1: Tx, b: Block)
    requires |b.events| == 1 && EventOnTree(h, c, tx0, b.num, b.events[0], None) == Done(tx1)
    ensures EventsOnTree(h, c, tx0, b.num, b.events, None) == Done(tx1)
  {
    assert b.events[1..] == [];
  }

  lemma BackwardIsDone(h: Hasher, c: Chain, height: nat, a: LeafData, x: LeafData, tx: Tx) returns (tx1: Tx)
    requires Roots(h, c, height) && Agree(c, tx.tables) && tx.tables == TwoLeaves(c, a, x).(blocks := {1} + {2})
    requires tx.work.leaves == Hashes(tx.tables.tree) && |tx.work.cache.left| == height
    requires tx.work.cache.lastIndex == 1 && FullLeft(h, tx.work.leaves, tx.work.cache.left)
    requires c.initialLER != c.rootOf([c.leafHash(a), c.leafHash(x)]) && c.initialLER != c.rootOf([c.leafHash(a)])
    ensures BackwardOnTree(h, c, tx, BackToOne(c, a, x)) == Done(tx1)
    ensures tx1.tables.tree == [LeafOf(c, Exit(1, 0, a))] && tx1.work.cache.lastIndex == 1
    ensures FullLeft(h, [c.leafHash(a), c.leafHash(x)], tx1.work.cache.left)
  {
    var e := BackToOne(c, a, x);
    assert tx.work.leaves == [c.leafHash(a), c.leafHash(x)];
    TruncateCuts(c, tx.tables, 1);
    var tx0 := Tx(TruncateTo(tx.tables, 1), Truncate(tx.work, 1));
    assert tx0.work.leaves == [c.leafHash(a)];
    assert tx0.tables.tree == [LeafOf(c, Exit(1, 0, a))];
    tx1 := BackwardOnTree(h, c, tx, e).tx;
  }

  /**
   Two leaves, a BackwardLET to one, and then a bridge with deposit count 2: on
   a list of leaves the syncer halts, the code stores the leaf.
   */
  lemma StaleIndexGoesAstray(h: Hasher, c: Chain, height: nat, a: LeafData, x: LeafData, y: LeafData, s: State)
    requires Roots(h, c, height) && CutToOne(h, c, height, a, x, s)
    ensures var b := Block(3, [BridgeEvent(Exit(3, 2, y))]);
            && ApplyBlock(c, s.tables, b) == Fail(InvalidIndex)
            && Attempt(h, c, s, b) == Astray
  {
    var b := Block(3, [BridgeEvent(Exit(3, 2, y))]);
    assert b.events[1..] == [];
    AttemptFollows(h, c, height, s, b);
  }

  // ----- both states are reached from an empty database -----

  function FirstExits(a: LeafData, x: Option<LeafData>): Block {
    Block(1, [BridgeEvent(Exit(1, 0, a))] + if x.Some? then [BridgeEvent(Exit(1, 1, x.value))] else [])
  }

  lemma FirstExitIsPut(h: Hasher, c: Chain, left: seq<Hash>, a: LeafData)
    requires Roots(h, c, |left|)
    ensures var tx0 := Tx(EMPTY_TABLES.(blocks := {} + {1}), Begin([], Cache(-2, left)));
            var tx1 := Tx(OneLeaf(c, a), Append(h, tx0.work, c.leafHash(a)));
            AddOnTree(h, c, tx0, 1, Exit(1, 0, a)) == Done(tx1) && InTx(h, [], |left|, tx1)
  {
    var tx0 := Tx(EMPTY_TABLES.(blocks := {} + {1}), Begin([], Cache(-2, left)));
    BeginIsWithin(h, [], Cache(-2, left));
    NextExitIsAdded(h, c, [], |left|, tx0, Exit(1, 0, a));
    assert {} + {1} == {1} && [] + [Exit(1, 0, a)] == [Exit(1, 0, a)];
    assert [] + [LeafOf(c, Exit(1, 0, a))] == [LeafOf(c, Exit(1, 0, a))];
  }

  lemma OneLeafIsReached(h: Hasher, c: Chain, left: seq<Hash>, a: LeafData)
    requires Roots(h, c, |left|)
    ensures HasOneLeaf(h, c, |left|, a, ProcessOnTree(h, c, Fresh(left), FirstExits(a, None)))
  {
    var b := FirstExits(a, None);
    FreshIsSound(h, c, left);
    FirstExitIsPut(h, c, left, a);
    assert Hashes([]) == [];
    var tx0 := Tx(EMPTY_TABLES.(blocks := {} + {1}), Begin([], Cache(-2, left)));
    OnlyEvent(h, c, tx0, AddOnTree(h, c, tx0, 1, Exit(1, 0, a)).tx, b);
    AttemptFollows(h, c, |left|, Fresh(left), b);
    HarmlessBlockStaysSound(h, c, |left|, Fresh(left), b);
  }

  lemma TwoLeavesAreReached(h: Hasher, c: Chain, left: seq<Hash>, a: LeafData, x: LeafData)
    requires Roots(h, c, |left|)
    ensures var s := ProcessOnTree(h, c, Fresh(left), FirstExits(a, Some(x)));
            && Sound(h, c, |left|, s) && !s.halted && s.tables == TwoLeaves(c, a, x)
            && s.cache.lastIndex == 1 && FullLeft(h, Hashes(s.tables.tree), s.cache.left)
  {
    var b := FirstExits(a, Some(x));
    FreshIsSound(h, c, left);
    FirstExitIsPut(h, c, left, a);
    assert Hashes([]) == [];
    var tx0 := Tx(EMPTY_TABLES.(blocks := {} + {1}), Begin([], Cache(-2, left)));
    var tx1 := AddOnTree(h, c, tx0, 1, Exit(1, 0, a)).tx;
    NextExitIsAdded(h, c, [], |left|, tx1, Exit(1, 1, x));
    var tx2 := AddOnTree(h, c, tx1, 1, Exit(1, 1, x)).tx;
    UnfoldTwo(h, c, tx0, tx1, tx2, b);
    assert b.events[2..] == [];
    assert tx2.tables == TwoLeaves(c, a, x);
    AttemptFollows(h, c, |left|, Fresh(left), b);
    HarmlessBlockStaysSound(h, c, |left|, Fresh(left), b);
  }
}
