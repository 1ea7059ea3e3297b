/**
 The puts of a block or a reorg, as far as indices and positions decide them:
 no node hash and no cached sibling is looked at. What the exit tree makes of a
 put depends on the number of leaves, the index the cache was last left at, and
 the position of the newest row; what a rollback makes of the cache depends on
 how many puts it takes back.
 */
module BridgePuts {
  import opened Prelude
  import opened BridgeTables
  import opened BridgeAgreement
  import opened TransactionRollback
  import BridgeOrder

  /** The cached index, the puts accepted so far, and the leaves the cache was last computed from. */
  datatype Count = Count(last: int, puts: nat, seen: seq<Hash>)

  /**
   How far a transaction gets. Repeated is the put of a leaf that is already
   there, which only a cache behind the tree lets through, and Unsafe one that
   the tree stores where it does not belong.
   */
  datatype Walk = On(tables: Tables, count: Count) | Stopped(why: Failure, count: Count) | Repeated(count: Count) | Unsafe

  predicate InSequence(tree: seq<Leaf>, leaf: Leaf) {
    tree != [] ==> Earlier(tree[|tree| - 1].blockNum, tree[|tree| - 1].blockPos, leaf.blockNum, leaf.blockPos)
  }

  ghost predicate InOrder(tree: seq<Leaf>) {
    forall i, j :: 0 <= i < j < |tree| ==> Earlier(tree[i].blockNum, tree[i].blockPos, tree[j].blockNum, tree[j].blockPos)
  }

  // ----- puts and events -----

  /** A put is right at the number of leaves, refused where the cache does not expect it either, and else out of place. */
  function WalkPut(t: Tables, k: Count, index: nat, leaf: Leaf): Walk {
    if index == |t.tree| then
      if InSequence(t.tree, leaf)
      then On(t.(tree := t.tree + [leaf]), Count(index, k.puts + 1, Hashes(t.tree) + [leaf.hash]))
      else Unsafe
    else if index != k.last + 1 then Stopped(InvalidIndex, Count(|t.tree| - 1, k.puts, Hashes(t.tree)))
    else if index < |t.tree| && leaf.hash == t.tree[index].hash then Repeated(k)
    else Unsafe
  }

  function Continue(r: Result<Tables>, k: Count): Walk {
    match r
    case Ok(t) => On(t, k)
    case Fail(why) => Stopped(why, k)
  }

  function WalkAdd(c: Chain, t: Tables, k: Count, leafBlock: nat, b: Bridge): Walk {
    var w := WalkPut(t, k, b.depositCount, Leaf(c.leafHash(b.leaf), leafBlock, b.blockPos));
    if w.On? then Continue(InsertBridge(w.tables, b), w.count) else w
  }

  function WalkAppend(c: Chain, t: Tables, k: Count, e: ForwardLET, leaves: seq<LeafData>, index: uint32, pos: nat): Walk
    decreases |leaves|
  {
    if leaves == [] then On(t, k)
    else
      var w := WalkAdd(c, t, k, e.blockNum, ForwardBridge(t.archive, e, leaves[0], index, pos));
      if w.On? then WalkAppend(c, w.tables, w.count, e, leaves[1..], NextUint32(index), pos + 1) else w
  }

  function WalkForward(c: Chain, t: Tables, k: Count, e: ForwardLET, pos: Option<nat>): Walk {
    if !MatchesLER(c, t, e.previousRoot) || e.newLeaves.None? then Stopped(Rejected, k)
    else if e.previousRoot != c.initialLER && !FitsUint32(e.previousDepositCount) then Stopped(Rejected, k)
    else
      var index := if e.previousRoot != c.initialLER then e.previousDepositCount else 0;
      var w := WalkAppend(c, t, k, e, e.newLeaves.value, index, ForwardStart(e, pos));
      if !w.On? then w
      else if !MatchesLER(c, w.tables, e.newRoot) then Stopped(Rejected, w.count)
      else Continue(InsertForward(w.tables, e), w.count)
  }

  function WalkEvent(c: Chain, t: Tables, k: Count, num: nat, e: Event, pos: Option<nat>): Walk {
    match e
    case BridgeEvent(b) => WalkAdd(c, t, k, num, Placed(b, pos))
    case BackwardEvent(l) => Continue(ApplyBackward(c, t, l), k)
    case ForwardEvent(f) => WalkForward(c, t, k, f, pos)
  }

  /** The running block position after an event. */
  function NextPos(e: Event, pos: Option<nat>): Option<nat> {
    match e
    case BridgeEvent(_) => Advanced(pos)
    case BackwardEvent(_) => pos
    case ForwardEvent(f) => if f.newLeaves.Some? then Some(ForwardStart(f, pos) + |f.newLeaves.value|) else pos
  }

  function WalkEvents(c: Chain, t: Tables, k: Count, num: nat, events: seq<Event>, pos: Option<nat>): Walk
    decreases |events|
  {
    if events == [] then On(t, k)
    else
      var w := WalkEvent(c, t, k, num, events[0], pos);
      if w.On? then WalkEvents(c, w.tables, w.count, num, events[1..], NextPos(events[0], pos)) else w
  }

  function WalkBlock(c: Chain, t: Tables, last: int, b: Block): Walk {
    WalkEvents(c, t.(blocks := t.blocks + {b.num}), Count(last, 0, Hashes(t.tree)), b.num, b.events, None)
  }

  // ----- reorgs -----

  function WalkRestoreRows(c: Chain, t: Tables, k: Count, rows: seq<Bridge>, removed: set<nat>): Walk
    decreases |rows|
  {
    if rows == [] then On(t, k)
    else if rows[0].depositCount in removed then WalkRestoreRows(c, t, k, rows[1..], removed)
    else
      var b := rows[0].(source := Live);
      match InsertBridge(t, b)
      case Fail(why) => Stopped(why, k)
      case Ok(t1) =>
        var w := WalkPut(t1, k, b.depositCount, Leaf(c.leafHash(b.leaf), b.blockNum, b.blockPos));
        if w.On? then WalkRestoreRows(c, w.tables, w.count, rows[1..], removed) else w
  }

  function WalkRestore(c: Chain, t: Tables, k: Count, lets: seq<BackwardLET>, removed: set<nat>): Walk
    decreases |lets|
  {
    if lets == [] then On(t, k)
    else
      var l := lets[0];
      if !FitsUint64(l.previousDepositCount) || !FitsUint64(l.newDepositCount) then Stopped(Rejected, k)
      else
        var w := WalkRestoreRows(c, t, k, ArchiveRows(t.archive, l.newDepositCount, l.previousDepositCount + 1), removed);
        if w.On? then WalkRestore(c, Cleared(w.tables, l), w.count, lets[1..], removed) else w
  }

  /** The archive without the range of a BackwardLET. */
  function Cleared(t: Tables, l: BackwardLET): Tables {
    t.(archive := WithoutRange(t.archive, l.newDepositCount, l.previousDepositCount))
  }

  function WalkReorg(c: Chain, t: Tables, last: int, first: nat): Walk {
    var lets := BackwardFrom(t.backward, first);
    var removed := if lets == [] then {} else ReorgedDepositCounts(t.archive, first);
    WalkRestore(c, DropBlocks(t, first), Count(last, 0, Hashes(t.tree)), lets, removed)
  }

  // ----- harmless blocks and reorgs -----

  /** What decides a syncer's next puts. */
  datatype Ledger = Ledger(tables: Tables, last: int, halted: bool)

  predicate FewTakenBack(k: Count) {
    Spared(k.puts, k.last + 1 - k.puts)
  }

  /**
   Every put of the block is at the number of leaves and newer than the rows
   before it, or at an index the cache does not expect either, and if the block
   fails it takes back few enough puts for what they leave.
   */
  predicate Harmless(c: Chain, l: Ledger, b: Block) {
    l.halted ||
    match WalkBlock(c, l.tables, l.last, b)
    case On(_, _) => true
    case Stopped(_, k) => FewTakenBack(k)
    case Repeated(_) => false
    case Unsafe => false
  }

  /** For a reorg; meeting a leaf that is already there fails it before it has put any. */
  predicate HarmlessReorg(c: Chain, l: Ledger, first: nat) {
    match WalkReorg(c, l.tables, l.last, first)
    case On(_, _) => true
    case Stopped(_, k) => FewTakenBack(k)
    case Repeated(k) => FewTakenBack(k)
    case Unsafe => false
  }

  predicate LeavesDiffer(w: Walk) {
    match w
    case On(_, _) => true
    case Stopped(_, k) => NoRepeats(k.seen)
    case Repeated(k) => NoRepeats(k.seen)
    case Unsafe => true
  }

  /** If the block fails, no two leaves the cache was computed from are equal. */
  predicate Distinguishable(c: Chain, l: Ledger, b: Block) {
    l.halted || LeavesDiffer(WalkBlock(c, l.tables, l.last, b))
  }

  predicate DistinguishableReorg(c: Chain, l: Ledger, first: nat) {
    LeavesDiffer(WalkReorg(c, l.tables, l.last, first))
  }

  /** After a harmless block: a rollback takes the cached index back by the puts. */
  function AfterBlock(c: Chain, l: Ledger, b: Block): Ledger {
    if l.halted then l
    else
      match WalkBlock(c, l.tables, l.last, b)
      case On(t, k) => Ledger(t, k.last, false)
      case Stopped(why, k) => Ledger(l.tables, k.last - k.puts, why.InvalidIndex?)
      case Repeated(k) => l
      case Unsafe => l
  }

  /** After a harmless reorg, which clears the halt if it succeeds. */
  function AfterReorg(c: Chain, l: Ledger, first: nat): Ledger {
    match WalkReorg(c, l.tables, l.last, first)
    case On(t, k) => Ledger(t, k.last, false)
    case Stopped(_, k) => l.(last := k.last - k.puts)
    case Repeated(k) => l.(last := k.last - k.puts)
    case Unsafe => l
  }

  predicate AllHarmless(c: Chain, l: Ledger, blocks: seq<Block>)
    decreases |blocks|
  {
    blocks != [] ==> Harmless(c, l, blocks[0]) && AllHarmless(c, AfterBlock(c, l, blocks[0]), blocks[1..])
  }

  /** As long as the blocks are harmless. */
  predicate AllDistinguishable(c: Chain, l: Ledger, blocks: seq<Block>)
    decreases |blocks|
  {
    blocks != [] ==> Distinguishable(c, l, blocks[0])
                     && (Harmless(c, l, blocks[0]) ==> AllDistinguishable(c, AfterBlock(c, l, blocks[0]), blocks[1..]))
  }

  // ----- the walk and the bookkeeping on lists -----

  /** A walk ends as the bookkeeping does, unless a put is unsafe. */
  ghost predicate Walks(w: Walk, r: Result<Tables>) {
    match w
    case On(t, _) => r == Ok(t)
    case Stopped(why, _) => r == Fail(why)
    case Repeated(_) => r == Fail(InvalidIndex)
    case Unsafe => true
  }

  lemma AddWalks(c: Chain, t: Tables, k: Count, leafBlock: nat, b: Bridge)
    ensures Walks(WalkAdd(c, t, k, leafBlock, b), AddBridge(c, t, leafBlock, b))
  {
  }

  lemma {:induction false} AppendWalks(
    c: Chain, t: Tables, k: Count, e: ForwardLET, leaves: seq<LeafData>, index: uint32, pos: nat)
    ensures Walks(WalkAppend(c, t, k, e, leaves, index, pos), AppendLeaves(c, t, e, leaves, index, pos))
    decreases |leaves|
  {
    if leaves != [] {
      var b := ForwardBridge(t.archive, e, leaves[0], index, pos);
      AddWalks(c, t, k, e.blockNum, b);
      var w := WalkAdd(c, t, k, e.blockNum, b);
      if w.On? { AppendWalks(c, w.tables, w.count, e, leaves[1..], NextUint32(index), pos + 1); }
    }
  }

  /** The tables of a result that also carries a position. */
  function TablesOf<T>(r: Result<(Tables, T)>): Result<Tables> {
    if r.Ok? then Ok(r.value.0) else Fail(r.why)
  }

  lemma ForwardWalks(c: Chain, t: Tables, k: Count, e: ForwardLET, pos: Option<nat>)
    ensures Walks(WalkForward(c, t, k, e, pos), TablesOf(ApplyForward(c, t, e, pos)))
    ensures ApplyForward(c, t, e, pos).Ok? ==> NextPos(ForwardEvent(e), pos) == Some(ApplyForward(c, t, e, pos).value.1)
  {
    if e.newLeaves.Some? && (e.previousRoot == c.initialLER || FitsUint32(e.previousDepositCount)) {
      var index := if e.previousRoot != c.initialLER then e.previousDepositCount else 0;
      AppendWalks(c, t, k, e, e.newLeaves.value, index, ForwardStart(e, pos));
    }
  }

  lemma EventWalks(c: Chain, t: Tables, k: Count, num: nat, e: Event, pos: Option<nat>)
    ensures var r := ApplyEvent(c, t, num, e, pos);
            Walks(WalkEvent(c, t, k, num, e, pos), TablesOf(r)) && (r.Ok? ==> r.value.1 == NextPos(e, pos))
  {
    match e
    case BridgeEvent(b) => AddWalks(c, t, k, num, Placed(b, pos));
    case BackwardEvent(l) =>
    case ForwardEvent(f) => ForwardWalks(c, t, k, f, pos);
  }

  lemma {:induction false} EventsWalk(c: Chain, t: Tables, k: Count, num: nat, events: seq<Event>, pos: Option<nat>)
    ensures Walks(WalkEvents(c, t, k, num, events, pos), ApplyEvents(c, t, num, events, pos))
    decreases |events|
  {
    if events != [] {
      EventWalks(c, t, k, num, events[0], pos);
      var w := WalkEvent(c, t, k, num, events[0], pos);
      if w.On? { EventsWalk(c, w.tables, w.count, num, events[1..], NextPos(events[0], pos)); }
    }
  }

  lemma BlockWalks(c: Chain, t: Tables, last: int, b: Block)
    ensures Walks(WalkBlock(c, t, last, b), ApplyBlock(c, t, b))
  {
    EventsWalk(c, t.(blocks := t.blocks + {b.num}), Count(last, 0, Hashes(t.tree)), b.num, b.events, None);
  }

  lemma {:induction false} RestoreRowsWalks(c: Chain, t: Tables, k: Count, rows: seq<Bridge>, removed: set<nat>)
    ensures Walks(WalkRestoreRows(c, t, k, rows, removed), RestoreRows(c, t, rows, removed))
    decreases |rows|
  {
    if rows != [] {
      if rows[0].depositCount in removed {
        RestoreRowsWalks(c, t, k, rows[1..], removed);
      } else {
        var b := rows[0].(source := Live);
        if InsertBridge(t, b).Ok? {
          var w := WalkPut(InsertBridge(t, b).value, k, b.depositCount, Leaf(c.leafHash(b.leaf), b.blockNum, b.blockPos));
          if w.On? { RestoreRowsWalks(c, w.tables, w.count, rows[1..], removed); }
        }
      }
    }
  }

  lemma {:induction false} RestoreWalks(c: Chain, t: Tables, k: Count, lets: seq<BackwardLET>, removed: set<nat>)
    ensures Walks(WalkRestore(c, t, k, lets, removed), Restore(c, t, lets, removed))
    decreases |lets|
  {
    if lets != [] && FitsUint64(lets[0].previousDepositCount) && FitsUint64(lets[0].newDepositCount) {
      var l := lets[0];
      var rows := ArchiveRows(t.archive, l.newDepositCount, l.previousDepositCount + 1);
      RestoreRowsWalks(c, t, k, rows, removed);
      var w := WalkRestoreRows(c, t, k, rows, removed);
      if w.On? { RestoreWalks(c, Cleared(w.tables, l), w.count, lets[1..], removed); }
    }
  }

  lemma ReorgWalks(c: Chain, t: Tables, last: int, first: nat)
    ensures Walks(WalkReorg(c, t, last, first), ApplyReorg(c, t, first))
  {
    var lets := BackwardFrom(t.backward, first);
    var removed := if lets == [] then {} else ReorgedDepositCounts(t.archive, first);
    RestoreWalks(c, DropBlocks(t, first), Count(last, 0, Hashes(t.tree)), lets, removed);
  }

  // ----- ordinary blocks and reorgs are harmless -----

  /** While a well-formed block is open, the next leaf it adds is in sequence. */
  lemma WellFormedIsInSequence(c: Chain, t: Tables, num: nat, pos: nat, floor: nat, hash: Hash)
    requires BridgeOrder.Good(c, t) && BridgeOrder.Open(t, num, Some(pos), floor)
    ensures InSequence(t.tree, Leaf(hash, num, pos))
  {
    if t.tree != [] {
      var last := |t.tree| - 1;
      assert t.tree[last].blockNum == t.bridge[last].blockNum;
    }
  }

  lemma CommittedAddWalks(c: Chain, t: Tables, k: Count, num: nat, b: Bridge, floor: nat)
    requires BridgeOrder.Good(c, t) && BridgeOrder.Open(t, num, Some(b.blockPos), floor)
    requires AddBridge(c, t, num, b).Ok?
    ensures WalkAdd(c, t, k, num, b).On?
  {
    WellFormedIsInSequence(c, t, num, b.blockPos, floor, c.leafHash(b.leaf));
  }

  lemma {:induction false} CommittedAppendWalks(
    c: Chain, t: Tables, k: Count, e: ForwardLET, leaves: seq<LeafData>, index: uint32, pos: nat, floor: nat)
    requires BridgeOrder.Good(c, t) && BridgeOrder.Open(t, e.blockNum, Some(pos), floor)
    requires AppendLeaves(c, t, e, leaves, index, pos).Ok?
    ensures WalkAppend(c, t, k, e, leaves, index, pos).On?
    decreases |leaves|
  {
    if leaves != [] {
      var b := ForwardBridge(t.archive, e, leaves[0], index, pos);
      CommittedAddWalks(c, t, k, e.blockNum, b, floor);
      AddWalks(c, t, k, e.blockNum, b);
      BridgeOrder.AddBridgeGood(c, t, e.blockNum, b, floor);
      var w := WalkAdd(c, t, k, e.blockNum, b);
      CommittedAppendWalks(c, w.tables, w.count, e, leaves[1..], NextUint32(index), pos + 1, floor);
    }
  }

  lemma CommittedEventWalks(c: Chain, t: Tables, k: Count, num: nat, e: Event, pos: Option<nat>, floor: nat)
    requires BridgeOrder.Good(c, t) && BridgeOrder.Open(t, num, pos, floor)
    requires BridgeOrder.EventBlock(e) == num && floor <= BridgeOrder.EventPos(e)
    requires ApplyEvent(c, t, num, e, pos).Ok?
    ensures WalkEvent(c, t, k, num, e, pos).On?
  {
    match e
    case BridgeEvent(b) => CommittedAddWalks(c, t, k, num, Placed(b, pos), floor);
    case BackwardEvent(l) =>
    case ForwardEvent(f) =>
      var index := if f.previousRoot != c.initialLER then f.previousDepositCount else 0;
      CommittedAppendWalks(c, t, k, f, f.newLeaves.value, index, ForwardStart(f, pos), floor);
      AppendWalks(c, t, k, f, f.newLeaves.value, index, ForwardStart(f, pos));
  }

  lemma {:induction false} CommittedEventsWalk(
    c: Chain, t: Tables, k: Count, num: nat, events: seq<Event>, pos: Option<nat>, floor: nat)
    requires BridgeOrder.Good(c, t) && BridgeOrder.Open(t, num, pos, floor)
    requires BridgeOrder.WellFormedEvents(c, t, num, events, pos, floor)
    requires ApplyEvents(c, t, num, events, pos).Ok?
    ensures WalkEvents(c, t, k, num, events, pos).On?
    decreases |events|
  {
    if events != [] {
      CommittedEventWalks(c, t, k, num, events[0], pos, floor);
      EventWalks(c, t, k, num, events[0], pos);
      BridgeOrder.EventGood(c, t, num, events[0], pos, floor);
      var w := WalkEvent(c, t, k, num, events[0], pos);
      CommittedEventsWalk(c, w.tables, w.count, num, events[1..], NextPos(events[0], pos), BridgeOrder.EventPos(events[0]) + 1);
    }
  }

  /** A well-formed block that commits on lists is harmless, whatever index the cache was left at. */
  lemma CommittedBlockIsHarmless(c: Chain, l: Ledger, b: Block)
    requires BridgeOrder.Good(c, l.tables) && BridgeOrder.WellFormedBlock(c, l.tables, b) && ApplyBlock(c, l.tables, b).Ok?
    ensures WalkBlock(c, l.tables, l.last, b).On? && Harmless(c, l, b)
  {
    var t := l.tables;
    forall i | 0 <= i < |t.tree| ensures t.tree[i].blockNum != b.num {
      assert t.bridge[i].blockNum in t.blocks;
    }
    CommittedEventsWalk(c, t.(blocks := t.blocks + {b.num}), Count(l.last, 0, Hashes(t.tree)), b.num, b.events, None, 0);
  }

  /** Restored rows only add leaves. */
  lemma {:induction false} RestoreRowsExtend(c: Chain, t: Tables, rows: seq<Bridge>, removed: set<nat>)
    requires RestoreRows(c, t, rows, removed).Ok?
    ensures t.tree <= RestoreRows(c, t, rows, removed).value.tree
    decreases |rows|
  {
    if rows != [] {
      if rows[0].depositCount in removed {
        RestoreRowsExtend(c, t, rows[1..], removed);
      } else {
        var b := rows[0].(source := Live);
        var t1 := InsertBridge(t, b).value;
        RestoreRowsExtend(c, PutLeaf(t1, b.depositCount, Leaf(c.leafHash(b.leaf), b.blockNum, b.blockPos)).value, rows[1..], removed);
      }
    }
  }

  lemma {:induction false} RestoreExtends(c: Chain, t: Tables, lets: seq<BackwardLET>, removed: set<nat>)
    requires Restore(c, t, lets, removed).Ok?
    ensures t.tree <= Restore(c, t, lets, removed).value.tree
    decreases |lets|
  {
    if lets != [] {
      var l := lets[0];
      var rows := ArchiveRows(t.archive, l.newDepositCount, l.previousDepositCount + 1);
      RestoreRowsExtend(c, t, rows, removed);
      RestoreExtends(c, Cleared(RestoreRows(c, t, rows, removed).value, l), lets[1..], removed);
    }
  }

  /** Rows restored into an ordered tree are in sequence one by one. */
  lemma {:induction false} OrderedRowsWalk(
    c: Chain, t: Tables, k: Count, rows: seq<Bridge>, removed: set<nat>, tree: seq<Leaf>)
    requires RestoreRows(c, t, rows, removed).Ok? && RestoreRows(c, t, rows, removed).value.tree <= tree && InOrder(tree)
    ensures WalkRestoreRows(c, t, k, rows, removed).On?
    decreases |rows|
  {
    if rows != [] {
      if rows[0].depositCount in removed {
        OrderedRowsWalk(c, t, k, rows[1..], removed, tree);
      } else {
        var b := rows[0].(source := Live);
        var t1 := InsertBridge(t, b).value;
        var leaf := Leaf(c.leafHash(b.leaf), b.blockNum, b.blockPos);
        var t2 := PutLeaf(t1, b.depositCount, leaf).value;
        RestoreRowsExtend(c, t2, rows[1..], removed);
        PrefixInSequence(t.tree, leaf, tree);
        OrderedRowsWalk(c, t2, WalkPut(t1, k, b.depositCount, leaf).count, rows[1..], removed, tree);
      }
    }
  }

  lemma PrefixInSequence(before: seq<Leaf>, leaf: Leaf, tree: seq<Leaf>)
    requires before + [leaf] <= tree && InOrder(tree)
    ensures InSequence(before, leaf)
  {
    if before != [] { assert tree[|before| - 1] == before[|before| - 1] && tree[|before|] == leaf; }
  }

  lemma {:induction false} OrderedRestoreWalks(
    c: Chain, t: Tables, k: Count, lets: seq<BackwardLET>, removed: set<nat>, tree: seq<Leaf>)
    requires Restore(c, t, lets, removed).Ok? && Restore(c, t, lets, removed).value.tree <= tree && InOrder(tree)
    ensures WalkRestore(c, t, k, lets, removed).On?
    decreases |lets|
  {
    if lets != [] {
      var l := lets[0];
      var rows := ArchiveRows(t.archive, l.newDepositCount, l.previousDepositCount + 1);
      var t1 := Cleared(RestoreRows(c, t, rows, removed).value, l);
      RestoreExtends(c, t1, lets[1..], removed);
      OrderedRowsWalk(c, t, k, rows, removed, tree);
      RestoreRowsWalks(c, t, k, rows, removed);
      OrderedRestoreWalks(c, t1, WalkRestoreRows(c, t, k, rows, removed).count, lets[1..], removed, tree);
    }
  }

  /** A reorg that succeeds on lists and leaves the leaves in order is harmless. */
  lemma OrderedReorgIsHarmless(c: Chain, l: Ledger, first: nat)
    requires ApplyReorg(c, l.tables, first).Ok? && InOrder(ApplyReorg(c, l.tables, first).value.tree)
    ensures WalkReorg(c, l.tables, l.last, first).On? && HarmlessReorg(c, l, first)
  {
    var t := l.tables;
    var lets := BackwardFrom(t.backward, first);
    var removed := if lets == [] then {} else ReorgedDepositCounts(t.archive, first);
    OrderedRestoreWalks(c, DropBlocks(t, first), Count(l.last, 0, Hashes(t.tree)), lets, removed,
                        ApplyReorg(c, t, first).value.tree);
  }
}
