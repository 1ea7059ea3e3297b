/**
 Blocks as the downloader delivers them and the contract emits them, and the
 order they leave in the tables: rows and leaves sit at strictly increasing
 (block, position), even where ForwardLETs have shifted the positions.
 */
module BridgeOrder {
  import opened Prelude
  import opened BridgeTables
  import opened BridgeAgreement

  // ----- well-formed blocks -----

  function EventBlock(e: Event): nat {
    match e
    case BridgeEvent(b) => b.blockNum
    case BackwardEvent(l) => l.blockNum
    case ForwardEvent(f) => f.blockNum
  }

  function EventPos(e: Event): nat {
    match e
    case BridgeEvent(b) => b.blockPos
    case BackwardEvent(l) => l.blockPos
    case ForwardEvent(f) => f.blockPos
  }

  /** A BackwardLET event reports the deposit count it moves back from. */
  ghost predicate Faithful(t: Tables, e: Event) {
    e.BackwardEvent? ==> 0 <= e.backward.newDepositCount <= e.backward.previousDepositCount == |t.tree|
  }

  /** Every event names the block it is in, log positions increase from floor on, and BackwardLETs are faithful. */
  ghost predicate WellFormedEvents(c: Chain, t: Tables, num: nat, events: seq<Event>, pos: Option<nat>, floor: nat)
    decreases |events|
  {
    events != [] ==>
      && EventBlock(events[0]) == num
      && floor <= EventPos(events[0])
      && Faithful(t, events[0])
      && (ApplyEvent(c, t, num, events[0], pos).Ok? ==>
            var r := ApplyEvent(c, t, num, events[0], pos).value;
            WellFormedEvents(c, r.0, num, events[1..], r.1, EventPos(events[0]) + 1))
  }

  ghost predicate WellFormedBlock(c: Chain, t: Tables, b: Block) {
    && (forall n :: n in t.blocks ==> n < b.num)
    && WellFormedEvents(c, t.(blocks := t.blocks + {b.num}), b.num, b.events, None, 0)
  }

  // ----- order -----

  predicate Precedes(a: Leaf, b: Leaf) {
    Earlier(a.blockNum, a.blockPos, b.blockNum, b.blockPos)
  }

  /** Each row carries the block and position of its leaf, and leaves are in strictly increasing order. */
  ghost predicate Ordered(t: Tables)
    requires |t.bridge| == |t.tree|
  {
    && (forall i :: 0 <= i < |t.tree| ==>
          t.tree[i].blockNum == t.bridge[i].blockNum && t.tree[i].blockPos == t.bridge[i].blockPos)
    && (forall i, j :: 0 <= i < j < |t.tree| ==> Precedes(t.tree[i], t.tree[j]))
  }

  /** Every row belongs to a stored block. */
  ghost predicate Referenced(t: Tables) {
    && (forall i :: 0 <= i < |t.bridge| ==> t.bridge[i].blockNum in t.blocks)
    && (forall i :: 0 <= i < |t.backward| ==> t.backward[i].blockNum in t.blocks)
    && (forall i :: 0 <= i < |t.forward| ==> t.forward[i].blockNum in t.blocks)
    && (forall d :: d in t.archive ==> t.archive[d].blockNum in t.blocks && t.archive[d].depositCount == d)
  }

  ghost predicate Good(c: Chain, t: Tables) {
    Agree(c, t) && Ordered(t) && Referenced(t)
  }

  /** While block num is being processed, the next row it adds goes after all the others. */
  ghost predicate Open(t: Tables, num: nat, pos: Option<nat>, floor: nat) {
    && num in t.blocks
    && (forall n :: n in t.blocks ==> n <= num)
    && (forall i :: 0 <= i < |t.tree| && t.tree[i].blockNum == num ==>
          t.tree[i].blockPos < if pos.Some? then pos.value else floor)
  }

  // ----- additions keep the order -----

  lemma AddBridgeGood(c: Chain, t: Tables, num: nat, b: Bridge, floor: nat)
    requires Good(c, t) && Open(t, num, Some(b.blockPos), floor)
    requires b.blockNum == num
    requires AddBridge(c, t, num, b).Ok?
    ensures Good(c, AddBridge(c, t, num, b).value)
    ensures Open(AddBridge(c, t, num, b).value, num, Some(b.blockPos + 1), floor)
  {
    var t1 := AddBridge(c, t, num, b).value;
    AddBridgeAgrees(c, t, num, b);
    forall i, j | 0 <= i < j < |t1.tree| ensures Precedes(t1.tree[i], t1.tree[j]) {
      assert t.bridge[i].blockNum in t.blocks;
    }
  }

  lemma {:induction false} AppendLeavesGood(
    c: Chain, t: Tables, e: ForwardLET, leaves: seq<LeafData>, index: uint32, pos: nat, floor: nat)
    requires Good(c, t) && Open(t, e.blockNum, Some(pos), floor)
    requires AppendLeaves(c, t, e, leaves, index, pos).Ok?
    ensures var t1 := AppendLeaves(c, t, e, leaves, index, pos).value;
            Good(c, t1) && Open(t1, e.blockNum, Some(pos + |leaves|), floor)
    decreases |leaves|
  {
    if leaves != [] {
      var b := ForwardBridge(t.archive, e, leaves[0], index, pos);
      AddBridgeGood(c, t, e.blockNum, b, floor);
      AppendLeavesGood(c, AddBridge(c, t, e.blockNum, b).value, e, leaves[1..], NextUint32(index), pos + 1, floor);
    }
  }

  // ----- truncation keeps the order -----

  /** Archiving rows k.. adds exactly those whose deposit count was not archived yet. */
  lemma {:induction false} ArchiveAllAdds(archive: map<nat, Bridge>, rows: seq<Bridge>, k: nat)
    requires k <= |rows| && forall i :: 0 <= i < |rows| ==> rows[i].depositCount == i
    ensures var a := ArchiveAll(archive, rows[k..]);
            && (forall d :: d in archive ==> d in a && a[d] == archive[d])
            && (forall d :: k <= d < |rows| ==> d in a && (d !in archive ==> a[d] == Archived(rows[d])))
            && (forall d :: d in a && d !in archive ==> k <= d < |rows|)
    decreases |rows| - k
  {
    if k < |rows| {
      assert rows[k..][0] == rows[k] && rows[k..][1..] == rows[k + 1..];
      ArchiveAllAdds(if k in archive then archive else archive[k := Archived(rows[k])], rows, k + 1);
    }
  }

  /** What a truncation to n does to agreeing tables, with the archive spelled out. */
  lemma TruncateEffect(c: Chain, t: Tables, n: nat)
    requires Agree(c, t)
    ensures var u := TruncateTo(t, n);
            var k := Min(n, |t.bridge|);
            && u == t.(bridge := t.bridge[..k], tree := t.tree[..k], archive := u.archive)
            && (forall d :: d in t.archive ==> d in u.archive && u.archive[d] == t.archive[d])
            && (forall d :: k <= d < |t.bridge| ==> d in u.archive && (d !in t.archive ==> u.archive[d] == Archived(t.bridge[d])))
            && (forall d :: d in u.archive && d !in t.archive ==> k <= d < |t.bridge|)
  {
    TruncateCuts(c, t, n);
    ArchiveAllAdds(t.archive, t.bridge, Min(n, |t.bridge|));
  }

  lemma TruncateGood(c: Chain, t: Tables, n: nat, num: nat, pos: Option<nat>, floor: nat)
    requires Good(c, t) && Open(t, num, pos, floor)
    ensures Good(c, TruncateTo(t, n)) && Open(TruncateTo(t, n), num, pos, floor)
  {
    TruncateEffect(c, t, n);
    TruncateAgrees(c, t, n);
  }

  // ----- events, blocks, runs -----

  lemma BackwardGood(c: Chain, t: Tables, l: BackwardLET, num: nat, pos: Option<nat>, floor: nat)
    requires Good(c, t) && Open(t, num, pos, floor) && l.blockNum == num && floor <= l.blockPos
    requires ApplyBackward(c, t, l).Ok?
    ensures var u := ApplyBackward(c, t, l).value;
            Good(c, u) && Open(u, num, pos, l.blockPos + 1)
  {
    TruncateGood(c, t, l.newDepositCount, num, pos, floor);
  }

  lemma ForwardGood(c: Chain, t: Tables, f: ForwardLET, num: nat, pos: Option<nat>, floor: nat)
    requires Good(c, t) && Open(t, num, pos, floor) && f.blockNum == num && floor <= f.blockPos
    requires ApplyForward(c, t, f, pos).Ok?
    ensures var r := ApplyForward(c, t, f, pos).value;
            Good(c, r.0) && Open(r.0, num, Some(r.1), f.blockPos + 1)
  {
    var index := if f.previousRoot != c.initialLER then f.previousDepositCount else 0;
    AppendLeavesGood(c, t, f, f.newLeaves.value, index, ForwardStart(f, pos), floor);
  }

  lemma EventGood(c: Chain, t: Tables, num: nat, e: Event, pos: Option<nat>, floor: nat)
    requires Good(c, t) && Open(t, num, pos, floor)
    requires EventBlock(e) == num && floor <= EventPos(e)
    requires ApplyEvent(c, t, num, e, pos).Ok?
    ensures var r := ApplyEvent(c, t, num, e, pos).value;
            Good(c, r.0) && Open(r.0, num, r.1, EventPos(e) + 1)
  {
    match e
    case BridgeEvent(b) =>
      AddBridgeGood(c, t, num, Placed(b, pos), floor);
    case BackwardEvent(l) =>
      BackwardGood(c, t, l, num, pos, floor);
    case ForwardEvent(f) =>
      ForwardGood(c, t, f, num, pos, floor);
  }

  lemma {:induction false} EventsGood(c: Chain, t: Tables, num: nat, events: seq<Event>, pos: Option<nat>, floor: nat)
    requires Good(c, t) && Open(t, num, pos, floor)
    requires WellFormedEvents(c, t, num, events, pos, floor)
    requires ApplyEvents(c, t, num, events, pos).Ok?
    ensures var t1 := ApplyEvents(c, t, num, events, pos).value;
            Good(c, t1) && num in t1.blocks && forall n :: n in t1.blocks ==> n <= num
    decreases |events|
  {
    if events != [] {
      EventGood(c, t, num, events[0], pos, floor);
      var r := ApplyEvent(c, t, num, events[0], pos).value;
      EventsGood(c, r.0, num, events[1..], r.1, EventPos(events[0]) + 1);
    }
  }

  /** One well-formed block keeps rows and leaves in strictly increasing (block, position) order. */
  lemma BlockGood(c: Chain, t: Tables, b: Block)
    requires Good(c, t) && WellFormedBlock(c, t, b) && ApplyBlock(c, t, b).Ok?
    ensures Good(c, ApplyBlock(c, t, b).value)
    ensures b.num in ApplyBlock(c, t, b).value.blocks
    ensures forall n :: n in ApplyBlock(c, t, b).value.blocks ==> n <= b.num
  {
    var t0 := t.(blocks := t.blocks + {b.num});
    forall i | 0 <= i < |t0.tree| ensures t0.tree[i].blockNum != b.num {
      assert t.bridge[i].blockNum in t.blocks;
    }
    EventsGood(c, t0, b.num, b.events, None, 0);
  }

  /** A run in which every block is committed. */
  function ApplyBlocks(c: Chain, t: Tables, blocks: seq<Block>): Result<Tables>
    decreases |blocks|
  {
    if blocks == [] then Ok(t)
    else
      match ApplyBlock(c, t, blocks[0])
      case Fail(why) => Fail(why)
      case Ok(t1) => ApplyBlocks(c, t1, blocks[1..])
  }

  ghost predicate WellFormedRun(c: Chain, t: Tables, blocks: seq<Block>)
    decreases |blocks|
  {
    blocks != [] ==>
      && WellFormedBlock(c, t, blocks[0])
      && (ApplyBlock(c, t, blocks[0]).Ok? ==> WellFormedRun(c, ApplyBlock(c, t, blocks[0]).value, blocks[1..]))
  }

  lemma {:induction false} RunGood(c: Chain, t: Tables, blocks: seq<Block>)
    requires Good(c, t) && WellFormedRun(c, t, blocks) && ApplyBlocks(c, t, blocks).Ok?
    ensures Good(c, ApplyBlocks(c, t, blocks).value)
    ensures forall n :: n in ApplyBlocks(c, t, blocks).value.blocks ==>
              n in t.blocks || exists i :: 0 <= i < |blocks| && blocks[i].num == n
    decreases |blocks|
  {
    if blocks != [] {
      var t1 := ApplyBlock(c, t, blocks[0]).value;
      BlockGood(c, t, blocks[0]);
      RunGood(c, t1, blocks[1..]);
      forall n | n in ApplyBlocks(c, t, blocks).value.blocks
        ensures n in t.blocks || exists i :: 0 <= i < |blocks| && blocks[i].num == n
      {
        if i :| 0 <= i < |blocks[1..]| && blocks[1..][i].num == n {
          assert blocks[i + 1].num == n;
        } else {
          EventsKeepBlocks(c, t.(blocks := t.blocks + {blocks[0].num}), blocks[0].num, blocks[0].events, None);
          assert n in t.blocks || blocks[0].num == n;
        }
      }
    }
  }

  lemma {:induction false} AppendLeavesKeepBlocks(
    c: Chain, t: Tables, e: ForwardLET, leaves: seq<LeafData>, index: uint32, pos: nat)
    requires AppendLeaves(c, t, e, leaves, index, pos).Ok?
    ensures AppendLeaves(c, t, e, leaves, index, pos).value.blocks == t.blocks
    decreases |leaves|
  {
    if leaves != [] {
      var t1 := AddBridge(c, t, e.blockNum, ForwardBridge(t.archive, e, leaves[0], index, pos)).value;
      AppendLeavesKeepBlocks(c, t1, e, leaves[1..], NextUint32(index), pos + 1);
    }
  }

  lemma {:induction false} EventsKeepBlocks(c: Chain, t: Tables, num: nat, events: seq<Event>, pos: Option<nat>)
    requires ApplyEvents(c, t, num, events, pos).Ok?
    ensures ApplyEvents(c, t, num, events, pos).value.blocks == t.blocks
    decreases |events|
  {
    if events != [] {
      if events[0].ForwardEvent? {
        var f := events[0].forward;
        var index := if f.previousRoot != c.initialLER then f.previousDepositCount else 0;
        AppendLeavesKeepBlocks(c, t, f, f.newLeaves.value, index, ForwardStart(f, pos));
      }
      var r := ApplyEvent(c, t, num, events[0], pos).value;
      EventsKeepBlocks(c, r.0, num, events[1..], r.1);
    }
  }

  /** The newest root by (block, position), which is how the source asks for it, is the one of the last leaf. */
  lemma NewestRootIsLast(c: Chain, t: Tables, i: nat)
    requires Good(c, t) && i < |t.tree|
    requires forall j :: 0 <= j < |t.tree| ==> j == i || Precedes(t.tree[j], t.tree[i])
    ensures i == |t.tree| - 1
  {
    var last := |t.tree| - 1;
    assert last == i || Precedes(t.tree[last], t.tree[i]);
    assert i < last ==> Precedes(t.tree[i], t.tree[last]);
  }
}
