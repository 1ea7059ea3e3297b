/**
 An input on which Reorg does not leave the tables "as if the last block
 processed was first - 1". BridgeReorg.ReorgUndoes says exactly which do.
 */
module BridgeReorgLimits {
  import opened Prelude
  import opened BridgeTables
  import opened BridgeOrder
  import opened BridgeReorg

  /** A chain whose root of n leaves is n, and whose initial root is that of no leaves. */
  const SAMPLE_CHAIN: Chain := Chain((leaf: LeafData) => 7, (hashes: seq<Hash>) => |hashes|, 0)

  function Exit(index: uint32): Bridge {
    Bridge(1, index, LeafData(0, 0, 0, 0, 0, index, []), index, 0, 0, None, 0, 0, Live)
  }

  function BackTo(num: nat, n: nat): BackwardLET {
    BackwardLET(num, 0, n + 1, n + 1, n, n)
  }

  const KEPT: seq<Block> := [Block(1, [BridgeEvent(Exit(0)), BridgeEvent(Exit(1))])]

  const DROPPED: seq<Block> := [Block(2, [BackwardEvent(BackTo(2, 1))]), Block(3, [BackwardEvent(BackTo(3, 0))])]

  const ONE_LEAF: Tables := Tables({1}, [Exit(0)], map[], [], [], [Leaf(7, 1, 0)])

  const TWO_LEAVES: Tables := Tables({1}, [Exit(0), Exit(1)], map[], [], [], [Leaf(7, 1, 0), Leaf(7, 1, 1)])

  const CUT_ONCE: Tables := Tables({1, 2}, [Exit(0)], map[1 := Archived(Exit(1))], [BackTo(2, 1)], [], [Leaf(7, 1, 0)])

  const CUT_TWICE: Tables := Tables(
    {1, 2, 3}, [], map[0 := Archived(Exit(0)), 1 := Archived(Exit(1))], [BackTo(2, 1), BackTo(3, 0)], [], [])

  lemma KeptRun()
    ensures ApplyBlocks(SAMPLE_CHAIN, EMPTY_TABLES, KEPT) == Ok(TWO_LEAVES)
    ensures WellFormedRun(SAMPLE_CHAIN, EMPTY_TABLES, KEPT)
  {
    var c := SAMPLE_CHAIN;
    var t0 := EMPTY_TABLES.(blocks := {1});
    assert EMPTY_TABLES.(blocks := EMPTY_TABLES.blocks + {1}) == t0;
    assert t0.bridge + [Exit(0)] == ONE_LEAF.bridge && t0.tree + [Leaf(7, 1, 0)] == ONE_LEAF.tree;
    assert ApplyEvent(c, t0, 1, BridgeEvent(Exit(0)), None) == Ok((ONE_LEAF, None));
    assert ONE_LEAF.bridge + [Exit(1)] == TWO_LEAVES.bridge && ONE_LEAF.tree + [Leaf(7, 1, 1)] == TWO_LEAVES.tree;
    assert ApplyEvent(c, ONE_LEAF, 1, BridgeEvent(Exit(1)), None) == Ok((TWO_LEAVES, None));
    var events := KEPT[0].events;
    assert events[1..] == [BridgeEvent(Exit(1))] && events[1..][1..] == [];
    assert ApplyEvents(c, ONE_LEAF, 1, events[1..], None) == Ok(TWO_LEAVES);
    assert ApplyBlock(c, EMPTY_TABLES, KEPT[0]) == Ok(TWO_LEAVES);
    assert WellFormedEvents(c, ONE_LEAF, 1, events[1..], None, 1);
    assert KEPT[1..] == [];
  }

  lemma FirstCutRun()
    ensures ApplyBlock(SAMPLE_CHAIN, TWO_LEAVES, DROPPED[0]) == Ok(CUT_ONCE)
    ensures WellFormedBlock(SAMPLE_CHAIN, TWO_LEAVES, DROPPED[0])
  {
    var c := SAMPLE_CHAIN;
    var t := TWO_LEAVES.(blocks := {1, 2});
    assert TWO_LEAVES.(blocks := TWO_LEAVES.blocks + {2}) == t;
    FilterKeepsPrefix(t.bridge, (b: Bridge) => b.depositCount < 1, 1);
    FilterKeepsSuffix(t.bridge, (b: Bridge) => b.depositCount >= 1, 1);
    assert AtOrAbove(t.bridge, 1) == [Exit(1)];
    assert ArchiveAll(map[], [Exit(1)]) == CUT_ONCE.archive;
    assert TruncateTo(t, 1) == CUT_ONCE.(backward := []);
    assert t.backward + [BackTo(2, 1)] == CUT_ONCE.backward;
    assert ApplyBackward(c, t, BackTo(2, 1)) == Ok(CUT_ONCE);
    assert DROPPED[0].events[1..] == [];
  }

  lemma SecondCutRun()
    ensures ApplyBlock(SAMPLE_CHAIN, CUT_ONCE, DROPPED[1]) == Ok(CUT_TWICE)
    ensures WellFormedBlock(SAMPLE_CHAIN, CUT_ONCE, DROPPED[1])
  {
    var c := SAMPLE_CHAIN;
    var t := CUT_ONCE.(blocks := {1, 2, 3});
    assert CUT_ONCE.(blocks := CUT_ONCE.blocks + {3}) == t;
    FilterKeepsPrefix(t.bridge, (b: Bridge) => b.depositCount < 0, 0);
    FilterKeepsSuffix(t.bridge, (b: Bridge) => b.depositCount >= 0, 0);
    assert AtOrAbove(t.bridge, 0) == [Exit(0)];
    assert ArchiveAll(t.archive, [Exit(0)]) == CUT_TWICE.archive;
    assert TruncateTo(t, 0) == CUT_TWICE.(backward := [BackTo(2, 1)]);
    assert t.backward + [BackTo(3, 0)] == CUT_TWICE.backward;
    assert ApplyBackward(c, t, BackTo(3, 0)) == Ok(CUT_TWICE);
    assert DROPPED[1].events[1..] == [];
  }

  lemma DroppedRun()
    ensures ApplyBlocks(SAMPLE_CHAIN, TWO_LEAVES, DROPPED) == Ok(CUT_TWICE)
    ensures WellFormedRun(SAMPLE_CHAIN, TWO_LEAVES, DROPPED)
  {
    FirstCutRun();
    SecondCutRun();
    assert DROPPED[1..] == [DROPPED[1]] && DROPPED[1..][1..] == [];
    assert ApplyBlocks(SAMPLE_CHAIN, CUT_ONCE, DROPPED[1..]) == Ok(CUT_TWICE);
    assert WellFormedRun(SAMPLE_CHAIN, CUT_ONCE, DROPPED[1..]);
  }

  lemma CutsAreTwo()
    ensures Cuts(2, LetsIn(DROPPED)) == 2
  {
    assert DROPPED[1..] == [DROPPED[1]] && DROPPED[1..][1..] == [];
    assert DROPPED[0].events[1..] == [] && DROPPED[1].events[1..] == [];
    assert LetsOf(DROPPED[0].events) == [BackTo(2, 1)] && LetsOf(DROPPED[1].events) == [BackTo(3, 0)];
    assert LetsIn(DROPPED[1..]) == [BackTo(3, 0)];
    var lets := LetsIn(DROPPED);
    assert lets == [BackTo(2, 1), BackTo(3, 0)] && lets[..1] == [BackTo(2, 1)] && lets[..1][..0] == [];
    assert Survivors(2, lets[..1]) == 1 && Cuts(2, lets[..1]) == 1;
  }

  /** Two exits, then a BackwardLET to 1 and another to 0: every block commits, and no reorg to block 2 restores the exits. */
  lemma NestedBackwardLETsDefeatReorg()
    ensures WellFormedRun(SAMPLE_CHAIN, EMPTY_TABLES, KEPT)
    ensures ApplyBlocks(SAMPLE_CHAIN, EMPTY_TABLES, KEPT) == Ok(TWO_LEAVES)
    ensures WellFormedRun(SAMPLE_CHAIN, TWO_LEAVES, DROPPED)
    ensures ApplyBlocks(SAMPLE_CHAIN, TWO_LEAVES, DROPPED) == Ok(CUT_TWICE)
    ensures var r := ApplyReorg(SAMPLE_CHAIN, CUT_TWICE, 2);
            !(r.Ok? && SameUpToSource(r.value, TWO_LEAVES))
  {
    KeptRun();
    DroppedRun();
    CutsAreTwo();
    ReorgUndoesSuffix(SAMPLE_CHAIN, KEPT, DROPPED, 2, TWO_LEAVES, CUT_TWICE);
  }
}
