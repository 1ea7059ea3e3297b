/**
 What every block keeps of the bookkeeping, with the exit tree as the list of
 its leaves: bridge table and tree describe the same exits, index by index.
 When the tree with its cache behaves as that list is BridgeOnTree's subject.
 */
module BridgeAgreement {
  import opened Prelude
  import opened BridgeTables

  /** Row i has deposit count i, and leaf i is its hash. */
  ghost predicate Agree(c: Chain, t: Tables) {
    && |t.bridge| == |t.tree| <= TWO_32
    && (forall i :: 0 <= i < |t.bridge| ==> t.bridge[i].depositCount == i)
    && (forall i :: 0 <= i < |t.bridge| ==> t.tree[i].hash == c.leafHash(t.bridge[i].leaf))
  }

  // ----- truncation -----

  /** On agreeing tables a truncation cuts both at the same place, and touches nothing else but the archive. */
  lemma TruncateCuts(c: Chain, t: Tables, n: nat)
    requires Agree(c, t)
    ensures var k := Min(n, |t.bridge|);
            && TruncateTo(t, n).bridge == t.bridge[..k]
            && TruncateTo(t, n).tree == t.tree[..k]
            && AtOrAbove(t.bridge, n) == t.bridge[k..]
  {
    var k := Min(n, |t.bridge|);
    FilterKeepsPrefix(t.bridge, (b: Bridge) => b.depositCount < n, k);
    FilterKeepsSuffix(t.bridge, (b: Bridge) => b.depositCount >= n, k);
  }

  lemma TruncateAgrees(c: Chain, t: Tables, n: nat)
    requires Agree(c, t)
    ensures Agree(c, TruncateTo(t, n))
  {
    TruncateCuts(c, t, n);
  }

  // ----- additions -----

  lemma AddBridgeAgrees(c: Chain, t: Tables, leafBlock: nat, b: Bridge)
    requires Agree(c, t)
    requires AddBridge(c, t, leafBlock, b).Ok?
    ensures Agree(c, AddBridge(c, t, leafBlock, b).value)
  {
  }

  lemma {:induction false} AppendLeavesAgrees(
    c: Chain, t: Tables, e: ForwardLET, leaves: seq<LeafData>, index: uint32, pos: nat)
    requires Agree(c, t)
    requires AppendLeaves(c, t, e, leaves, index, pos).Ok?
    ensures Agree(c, AppendLeaves(c, t, e, leaves, index, pos).value)
    decreases |leaves|
  {
    if leaves != [] {
      var b := ForwardBridge(t.archive, e, leaves[0], index, pos);
      AddBridgeAgrees(c, t, e.blockNum, b);
      AppendLeavesAgrees(c, AddBridge(c, t, e.blockNum, b).value, e, leaves[1..], NextUint32(index), pos + 1);
    }
  }

  // ----- events, blocks, runs -----

  lemma EventAgrees(c: Chain, t: Tables, num: nat, e: Event, pos: Option<nat>)
    requires Agree(c, t)
    requires ApplyEvent(c, t, num, e, pos).Ok?
    ensures Agree(c, ApplyEvent(c, t, num, e, pos).value.0)
  {
    match e
    case BridgeEvent(b) =>
    case BackwardEvent(l) =>
      TruncateAgrees(c, t, l.newDepositCount);
    case ForwardEvent(f) =>
      var index := if f.previousRoot != c.initialLER then f.previousDepositCount else 0;
      AppendLeavesAgrees(c, t, f, f.newLeaves.value, index, ForwardStart(f, pos));
  }

  lemma {:induction false} EventsAgree(c: Chain, t: Tables, num: nat, events: seq<Event>, pos: Option<nat>)
    requires Agree(c, t)
    requires ApplyEvents(c, t, num, events, pos).Ok?
    ensures Agree(c, ApplyEvents(c, t, num, events, pos).value)
    decreases |events|
  {
    if events != [] {
      EventAgrees(c, t, num, events[0], pos);
      var r := ApplyEvent(c, t, num, events[0], pos).value;
      EventsAgree(c, r.0, num, events[1..], r.1);
    }
  }

  /** The syncer between two blocks. */
  datatype Syncer = Syncer(tables: Tables, halted: bool)

  const FRESH_SYNCER: Syncer := Syncer(EMPTY_TABLES, false)

  /** One ProcessBlock call: all of the block or nothing of it, and nothing at all while halted. */
  function ProcessBlock(c: Chain, s: Syncer, b: Block): Syncer {
    if s.halted then s
    else
      match ApplyBlock(c, s.tables, b)
      case Ok(t) => Syncer(t, false)
      case Fail(why) => s.(halted := why.InvalidIndex?)
  }

  function ProcessBlocks(c: Chain, s: Syncer, blocks: seq<Block>): Syncer
    decreases |blocks|
  {
    if blocks == [] then s else ProcessBlocks(c, ProcessBlock(c, s, blocks[0]), blocks[1..])
  }

  /** Table/tree agreement over every run of blocks on the list of leaves; for the tree itself, BridgeOnTree.RunsStaySoundIff. */
  lemma {:induction false} RunsAgree(c: Chain, s: Syncer, blocks: seq<Block>)
    requires Agree(c, s.tables)
    ensures Agree(c, ProcessBlocks(c, s, blocks).tables)
    decreases |blocks|
  {
    if blocks != [] {
      var b := blocks[0];
      if !s.halted && ApplyBlock(c, s.tables, b).Ok? {
        EventsAgree(c, s.tables.(blocks := s.tables.blocks + {b.num}), b.num, b.events, None);
      }
      RunsAgree(c, ProcessBlock(c, s, b), blocks[1..]);
    }
  }

  /** From an empty database, the deposit counts are 0..n-1 for an n-leaf tree and leaf i is the hash of row i. */
  lemma RunsFromEmptyAgree(c: Chain, blocks: seq<Block>)
    ensures Agree(c, ProcessBlocks(c, FRESH_SYNCER, blocks).tables)
  {
    RunsAgree(c, FRESH_SYNCER, blocks);
  }

  /** Once halted, no block changes anything until a reorg clears the halt. */
  lemma {:induction false} HaltedIsStuck(c: Chain, s: Syncer, blocks: seq<Block>)
    requires s.halted
    ensures ProcessBlocks(c, s, blocks) == s
    decreases |blocks|
  {
    if blocks != [] {
      HaltedIsStuck(c, s, blocks[1..]);
    }
  }
}
