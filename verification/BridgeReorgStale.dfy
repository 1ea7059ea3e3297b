/**
 The other input on which Reorg does not leave the tables "as if the last block
 processed was first - 1": a deposit count archived before the dropped blocks,
 added again, and spanned by a dropped BackwardLET. The reorg succeeds and
 brings the row back that had been replaced.
 */
module BridgeReorgStale {
  import opened Prelude
  import opened BridgeTables
  import opened BridgeAgreement
  import opened BridgeOrder
  import opened BridgeReorg
  import BridgeRoundTrip

  function Exit(num: nat, index: uint32, data: LeafData): Bridge {
    Bridge(num, 0, data, index, 0, 0, None, 0, 0, Live)
  }

  function LeafOf(c: Chain, b: Bridge): Leaf {
    Leaf(c.leafHash(b.leaf), b.blockNum, b.blockPos)
  }

  /** From two leaves back to one, in block num. */
  function BackToOne(c: Chain, num: nat, a: LeafData, x: LeafData): BackwardLET {
    BackwardLET(num, 0, 2, c.rootOf([c.leafHash(a), c.leafHash(x)]), 1, c.rootOf([c.leafHash(a)]))
  }

  /** The roots of the two trees are not that of the empty one. */
  predicate NotInitial(c: Chain, a: LeafData, x: LeafData) {
    c.initialLER != c.rootOf([c.leafHash(a)]) && c.initialLER != c.rootOf([c.leafHash(a), c.leafHash(x)])
  }

  // ----- blocks of one event -----

  lemma AddBlock(c: Chain, t: Tables, num: nat, index: uint32, data: LeafData)
    requires (forall n :: n in t.blocks ==> n < num) && index == |t.tree|
    requires forall i :: 0 <= i < |t.bridge| ==> t.bridge[i].blockNum in t.blocks
    ensures var e := Exit(num, index, data);
            var b := Block(num, [BridgeEvent(e)]);
            && ApplyBlock(c, t, b)
               == Ok(t.(blocks := t.blocks + {num}, bridge := t.bridge + [e], tree := t.tree + [LeafOf(c, e)]))
            && WellFormedBlock(c, t, b)
  {
    var b := Block(num, [BridgeEvent(Exit(num, index, data))]);
    BridgeRoundTrip.OneEventBlock(c, t, b);
    assert b.events[1..] == [];
  }

  /** What a truncation to one leaves of two rows; a row archived earlier under its deposit count stays. */
  lemma CutToOne(c: Chain, t: Tables, p: Bridge, q: Bridge)
    requires t.bridge == [p, q] && t.tree == [LeafOf(c, p), LeafOf(c, q)] && p.depositCount == 0 && q.depositCount == 1
    ensures TruncateTo(t, 1) == t.(bridge := [p], tree := [LeafOf(c, p)],
                                   archive := if 1 in t.archive then t.archive else t.archive[1 := Archived(q)])
  {
    FilterKeepsPrefix(t.bridge, (b: Bridge) => b.depositCount < 1, 1);
    FilterKeepsSuffix(t.bridge, (b: Bridge) => b.depositCount >= 1, 1);
    assert t.bridge[1..] == [q] && [q][1..] == [] && t.bridge[..1] == [p] && t.tree[..1] == [LeafOf(c, p)];
    var next := if 1 in t.archive then t.archive else t.archive[1 := Archived(q)];
    assert ArchiveAll(t.archive, [q]) == ArchiveAll(next, []);
  }

  lemma CutBlock(c: Chain, t: Tables, num: nat, p: Bridge, q: Bridge)
    requires (forall n :: n in t.blocks ==> n < num) && NotInitial(c, p.leaf, q.leaf)
    requires t.bridge == [p, q] && t.tree == [LeafOf(c, p), LeafOf(c, q)] && p.depositCount == 0 && q.depositCount == 1
    requires forall i :: 0 <= i < |t.backward| ==> t.backward[i].blockNum in t.blocks
    ensures var l := BackToOne(c, num, p.leaf, q.leaf);
            var b := Block(num, [BackwardEvent(l)]);
            && ApplyBlock(c, t, b)
               == Ok(t.(blocks := t.blocks + {num}, bridge := [p], tree := [LeafOf(c, p)], backward := t.backward + [l],
                        archive := if 1 in t.archive then t.archive else t.archive[1 := Archived(q)]))
            && WellFormedBlock(c, t, b)
  {
    var l := BackToOne(c, num, p.leaf, q.leaf);
    var b := Block(num, [BackwardEvent(l)]);
    var t0 := t.(blocks := t.blocks + {num});
    BridgeRoundTrip.OneEventBlock(c, t, b);
    CutToOne(c, t0, p, q);
    assert Hashes(t0.tree) == [c.leafHash(p.leaf), c.leafHash(q.leaf)];
    assert Hashes([LeafOf(c, p)]) == [c.leafHash(p.leaf)];
    assert b.events[1..] == [];
  }

  lemma FirstBlock(c: Chain, t: Tables, b: Block, rest: seq<Block>, u: Tables)
    requires WellFormedBlock(c, t, b) && ApplyBlock(c, t, b) == Ok(u)
    ensures ApplyBlocks(c, t, [b] + rest) == ApplyBlocks(c, u, rest)
    ensures WellFormedRun(c, t, [b] + rest) <==> WellFormedRun(c, u, rest)
  {
    assert ([b] + rest)[1..] == rest;
  }

  // ----- the run -----

  function Kept(c: Chain, a: LeafData, x: LeafData, y: LeafData): seq<Block> {
    [Block(1, [BridgeEvent(Exit(1, 0, a))])] + ([Block(2, [BridgeEvent(Exit(2, 1, x))])]
      + ([Block(3, [BackwardEvent(BackToOne(c, 3, a, x))])] + ([Block(4, [BridgeEvent(Exit(4, 1, y))])] + [])))
  }

  function Dropped(c: Chain, a: LeafData, y: LeafData): seq<Block> {
    [Block(5, [BackwardEvent(BackToOne(c, 5, a, y))])] + []
  }

  /** Deposit count 1 is archived with content x and taken by content y. */
  function Before(c: Chain, a: LeafData, x: LeafData, y: LeafData): Tables {
    Tables({1, 2, 3, 4}, [Exit(1, 0, a), Exit(4, 1, y)], map[1 := Archived(Exit(2, 1, x))], [BackToOne(c, 3, a, x)], [],
           [LeafOf(c, Exit(1, 0, a)), LeafOf(c, Exit(4, 1, y))])
  }

  function After(c: Chain, a: LeafData, x: LeafData, y: LeafData): Tables {
    Tables({1, 2, 3, 4, 5}, [Exit(1, 0, a)], map[1 := Archived(Exit(2, 1, x))],
           [BackToOne(c, 3, a, x), BackToOne(c, 5, a, y)], [], [LeafOf(c, Exit(1, 0, a))])
  }

  function TwoExits(c: Chain, a: LeafData, x: LeafData): Tables {
    Tables({1, 2}, [Exit(1, 0, a), Exit(2, 1, x)], map[], [], [], [LeafOf(c, Exit(1, 0, a)), LeafOf(c, Exit(2, 1, x))])
  }

  function CutOnce(c: Chain, a: LeafData, x: LeafData): Tables {
    Tables({1, 2, 3}, [Exit(1, 0, a)], map[1 := Archived(Exit(2, 1, x))], [BackToOne(c, 3, a, x)], [],
           [LeafOf(c, Exit(1, 0, a))])
  }

  lemma TwoExitsRun(c: Chain, a: LeafData, x: LeafData, rest: seq<Block>)
    ensures var run := [Block(1, [BridgeEvent(Exit(1, 0, a))])] + ([Block(2, [BridgeEvent(Exit(2, 1, x))])] + rest);
            && ApplyBlocks(c, EMPTY_TABLES, run) == ApplyBlocks(c, TwoExits(c, a, x), rest)
            && (WellFormedRun(c, EMPTY_TABLES, run) <==> WellFormedRun(c, TwoExits(c, a, x), rest))
  {
    var t1 := Tables({1}, [Exit(1, 0, a)], map[], [], [], [LeafOf(c, Exit(1, 0, a))]);
    AddBlock(c, EMPTY_TABLES, 1, 0, a);
    assert EMPTY_TABLES.blocks + {1} == t1.blocks;
    assert EMPTY_TABLES.bridge + [Exit(1, 0, a)] == t1.bridge && EMPTY_TABLES.tree + [LeafOf(c, Exit(1, 0, a))] == t1.tree;
    AddBlock(c, t1, 2, 1, x);
    assert t1.blocks + {2} == {1, 2};
    assert t1.bridge + [Exit(2, 1, x)] == TwoExits(c, a, x).bridge;
    assert t1.tree + [LeafOf(c, Exit(2, 1, x))] == TwoExits(c, a, x).tree;
    FirstBlock(c, t1, Block(2, [BridgeEvent(Exit(2, 1, x))]), rest, TwoExits(c, a, x));
    FirstBlock(c, EMPTY_TABLES, Block(1, [BridgeEvent(Exit(1, 0, a))]), [Block(2, [BridgeEvent(Exit(2, 1, x))])] + rest, t1);
  }

  lemma ReplacedRun(c: Chain, a: LeafData, x: LeafData, y: LeafData)
    requires NotInitial(c, a, x)
    ensures var run := [Block(3, [BackwardEvent(BackToOne(c, 3, a, x))])] + ([Block(4, [BridgeEvent(Exit(4, 1, y))])] + []);
            && ApplyBlocks(c, TwoExits(c, a, x), run) == Ok(Before(c, a, x, y))
            && WellFormedRun(c, TwoExits(c, a, x), run)
  {
    var t2, t3 := TwoExits(c, a, x), CutOnce(c, a, x);
    CutBlock(c, t2, 3, Exit(1, 0, a), Exit(2, 1, x));
    assert t2.blocks + {3} == t3.blocks && t2.backward + [BackToOne(c, 3, a, x)] == t3.backward;
    assert t2.archive[1 := Archived(Exit(2, 1, x))] == t3.archive;
    AddBlock(c, t3, 4, 1, y);
    assert t3.blocks + {4} == {1, 2, 3, 4};
    assert t3.bridge + [Exit(4, 1, y)] == Before(c, a, x, y).bridge;
    assert t3.tree + [LeafOf(c, Exit(4, 1, y))] == Before(c, a, x, y).tree;
    FirstBlock(c, t3, Block(4, [BridgeEvent(Exit(4, 1, y))]), [], Before(c, a, x, y));
    FirstBlock(c, t2, Block(3, [BackwardEvent(BackToOne(c, 3, a, x))]), [Block(4, [BridgeEvent(Exit(4, 1, y))])] + [], t3);
  }

  lemma DroppedRun(c: Chain, a: LeafData, x: LeafData, y: LeafData)
    requires NotInitial(c, a, y)
    ensures ApplyBlocks(c, Before(c, a, x, y), Dropped(c, a, y)) == Ok(After(c, a, x, y))
    ensures WellFormedRun(c, Before(c, a, x, y), Dropped(c, a, y))
  {
    var t4 := Before(c, a, x, y);
    CutBlock(c, t4, 5, Exit(1, 0, a), Exit(4, 1, y));
    assert t4.blocks + {5} == {1, 2, 3, 4, 5};
    assert t4.backward + [BackToOne(c, 5, a, y)] == After(c, a, x, y).backward;
    FirstBlock(c, t4, Block(5, [BackwardEvent(BackToOne(c, 5, a, y))]), [], After(c, a, x, y));
  }

  // ----- the reorg -----

  lemma DropFive(c: Chain, a: LeafData, x: LeafData, y: LeafData)
    ensures var t := After(c, a, x, y);
            && DropBlocks(t, 5) == Before(c, a, x, y).(bridge := [Exit(1, 0, a)], tree := [LeafOf(c, Exit(1, 0, a))])
            && BackwardFrom(t.backward, 5) == [BackToOne(c, 5, a, y)]
            && ReorgedDepositCounts(t.archive, 5) == {}
  {
    var t := After(c, a, x, y);
    FilterKeepsPrefix(t.bridge, (b: Bridge) => b.blockNum < 5, 1);
    FilterKeepsPrefix(t.tree, (l: Leaf) => l.blockNum < 5, 1);
    FilterKeepsPrefix(t.backward, (l: BackwardLET) => l.blockNum < 5, 1);
    FilterKeepsSuffix(t.backward, (l: BackwardLET) => l.blockNum >= 5, 1);
    assert (set n | n in t.blocks && n < 5) == {1, 2, 3, 4};
    assert t.bridge[..1] == t.bridge && t.tree[..1] == t.tree;
    assert t.backward[..1] == [BackToOne(c, 3, a, x)] && t.backward[1..] == [BackToOne(c, 5, a, y)];
  }

  /** The archived row with content x is put where y was. */
  lemma RestoresStaleRow(c: Chain, a: LeafData, x: LeafData, t: Tables, l: BackwardLET)
    requires t.bridge == [Exit(1, 0, a)] && t.tree == [LeafOf(c, Exit(1, 0, a))] && 2 in t.blocks
    requires 1 in t.archive && t.archive[1] == Archived(Exit(2, 1, x)) && 2 !in t.archive
    requires l.newDepositCount == 1 && l.previousDepositCount == 2
    ensures var r := Restore(c, t, [l], {});
            r.Ok? && r.value.bridge == [Exit(1, 0, a), Exit(2, 1, x)]
  {
    var stale := Archived(Exit(2, 1, x));
    assert ArchiveRows(t.archive, 2, 3) == [] + ArchiveRows(t.archive, 3, 3);
    assert ArchiveRows(t.archive, 1, 3) == [stale] + ArchiveRows(t.archive, 2, 3);
    assert ArchiveRows(t.archive, 1, 3) == [stale];
    assert [stale][1..] == [] && [l][1..] == [];
    var t1 := t.(bridge := [Exit(1, 0, a), Exit(2, 1, x)]);
    assert t.bridge + [Exit(2, 1, x)] == t1.bridge;
    assert InsertBridge(t, stale.(source := Live)) == Ok(t1);
    var t2 := t1.(tree := t1.tree + [LeafOf(c, Exit(2, 1, x))]);
    assert RestoreRows(c, t, [stale], {}) == RestoreRows(c, t2, [], {});
    assert Restore(c, t, [l], {}) == Restore(c, t2.(archive := WithoutRange(t2.archive, 1, 2)), [], {});
  }

  /**
   Exits a and x, a BackwardLET that archives x, and exit y at x's deposit
   count; then a BackwardLET that removes y. Every block commits, and the reorg
   of the last one succeeds with x where the earlier tables have y.
   */
  lemma ArchivedRowComesBackStale(c: Chain, a: LeafData, x: LeafData, y: LeafData)
    requires NotInitial(c, a, x) && NotInitial(c, a, y) && x != y
    ensures WellFormedRun(c, EMPTY_TABLES, Kept(c, a, x, y))
    ensures ApplyBlocks(c, EMPTY_TABLES, Kept(c, a, x, y)) == Ok(Before(c, a, x, y))
    ensures WellFormedRun(c, Before(c, a, x, y), Dropped(c, a, y))
    ensures ApplyBlocks(c, Before(c, a, x, y), Dropped(c, a, y)) == Ok(After(c, a, x, y))
    ensures var r := ApplyReorg(c, After(c, a, x, y), 5);
            && r.Ok? && |r.value.bridge| == 2 && r.value.bridge[1].leaf == x
            && Before(c, a, x, y).bridge[1].leaf == y && !SameUpToSource(r.value, Before(c, a, x, y))
  {
    TwoExitsRun(c, a, x, [Block(3, [BackwardEvent(BackToOne(c, 3, a, x))])] + ([Block(4, [BridgeEvent(Exit(4, 1, y))])] + []));
    ReplacedRun(c, a, x, y);
    DroppedRun(c, a, x, y);
    DropFive(c, a, x, y);
    var t := DropBlocks(After(c, a, x, y), 5);
    RestoresStaleRow(c, a, x, t, BackToOne(c, 5, a, y));
    StaleIsDifferent(ApplyReorg(c, After(c, a, x, y), 5).value, Before(c, a, x, y));
  }

  lemma StaleIsDifferent(r: Tables, t0: Tables)
    requires |r.bridge| == |t0.bridge| == 2 && r.bridge[1].leaf != t0.bridge[1].leaf
    ensures !SameUpToSource(r, t0)
  {
    assert r.bridge[1].(source := Live) != t0.bridge[1].(source := Live);
  }
}
