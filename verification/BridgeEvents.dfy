/**
 What the events of a block mean, told without the bookkeeping: which roots a
 LET event has to name, and which rows and leaves a run of events leaves. A
 replay of the events alone gives the same exits as the tables.
 */
module BridgeEvents {
  import opened Prelude
  import opened BridgeTables
  import opened BridgeAgreement
  import opened BridgeOrder
  import opened BridgeReorg

  // ----- the roots a LET event names -----

  /** The root names the tree of these leaves: the initial one stands for no leaves, zero for a tree without a root. */
  predicate Names(c: Chain, hashes: seq<Hash>, root: Hash) {
    if root == c.initialLER then hashes == [] || c.rootOf(hashes) == ZERO_HASH
    else if hashes == [] then root == ZERO_HASH
    else root == c.rootOf(hashes)
  }

  function LeafHashes(c: Chain, leaves: seq<LeafData>): (r: seq<Hash>)
    ensures |r| == |leaves|
    ensures forall i :: 0 <= i < |leaves| ==> r[i] == c.leafHash(leaves[i])
  {
    seq(|leaves|, i requires 0 <= i < |leaves| => c.leafHash(leaves[i]))
  }

  lemma MatchesIffNamed(c: Chain, t: Tables, root: Hash)
    ensures MatchesLER(c, t, root) <==> Names(c, Hashes(t.tree), root)
  {
    assert Hashes(t.tree) == [] <==> t.tree == [];
  }

  /** The leaves a BackwardLET keeps. */
  function Kept(t: Tables, n: nat): seq<Hash> {
    Hashes(t.tree)[..Min(n, |t.tree|)]
  }

  lemma TruncatedHashes(t: Tables, n: nat)
    ensures Hashes(TruncateTo(t, n).tree) == Kept(t, n)
  {
  }

  /** A BackwardLET is recorded exactly when it names the tree before and after, fits, and has a place of its own. */
  lemma BackwardAcceptedIff(c: Chain, t: Tables, e: BackwardLET)
    ensures ApplyBackward(c, t, e).Ok? <==>
            && Names(c, Hashes(t.tree), e.previousRoot)
            && FitsUint32(e.newDepositCount) && Names(c, Kept(t, e.newDepositCount), e.newRoot)
            && e.blockNum in t.blocks
            && forall i :: 0 <= i < |t.backward| ==> !(t.backward[i].blockNum == e.blockNum && t.backward[i].blockPos == e.blockPos)
    ensures ApplyBackward(c, t, e).Ok? || ApplyBackward(c, t, e) == Fail(Rejected)
    ensures ApplyBackward(c, t, e).Ok? ==>
              var u := ApplyBackward(c, t, e).value;
              && Hashes(u.tree) == Kept(t, e.newDepositCount)
              && u.backward == t.backward + [e] && u.forward == t.forward && u.blocks == t.blocks
  {
    MatchesIffNamed(c, t, e.previousRoot);
    if FitsUint32(e.newDepositCount) {
      TruncatedHashes(t, e.newDepositCount);
      MatchesIffNamed(c, TruncateTo(t, e.newDepositCount), e.newRoot);
    }
  }

  /** With no zero root, a LET event that names the initial root finds the tree empty. */
  lemma InitialRootMeansEmpty(c: Chain, hashes: seq<Hash>)
    requires forall hs :: hs != [] ==> c.rootOf(hs) != ZERO_HASH
    ensures Names(c, hashes, c.initialLER) <==> hashes == []
  {
  }

  lemma LeafHashesCons(c: Chain, leaves: seq<LeafData>, before: seq<Hash>)
    requires leaves != []
    ensures before + LeafHashes(c, leaves) == before + [c.leafHash(leaves[0])] + LeafHashes(c, leaves[1..])
  {
    assert LeafHashes(c, leaves) == [c.leafHash(leaves[0])] + LeafHashes(c, leaves[1..]);
  }

  lemma AddedHash(c: Chain, t: Tables, num: nat, b: Bridge)
    requires AddBridge(c, t, num, b).Ok?
    ensures Hashes(AddBridge(c, t, num, b).value.tree) == Hashes(t.tree) + [c.leafHash(b.leaf)]
  {
  }

  lemma {:induction false} AppendedHashes(
    c: Chain, t: Tables, e: ForwardLET, leaves: seq<LeafData>, index: uint32, pos: nat)
    requires AppendLeaves(c, t, e, leaves, index, pos).Ok?
    ensures Hashes(AppendLeaves(c, t, e, leaves, index, pos).value.tree) == Hashes(t.tree) + LeafHashes(c, leaves)
    decreases |leaves|
  {
    if leaves == [] {
      assert Hashes(t.tree) + LeafHashes(c, leaves) == Hashes(t.tree);
    } else {
      var b := ForwardBridge(t.archive, e, leaves[0], index, pos);
      AddedHash(c, t, e.blockNum, b);
      AppendedHashes(c, AddBridge(c, t, e.blockNum, b).value, e, leaves[1..], NextUint32(index), pos + 1);
      LeafHashesCons(c, leaves, Hashes(t.tree));
    }
  }

  /** Where a ForwardLET says its leaves start. */
  function FirstIndex(c: Chain, e: ForwardLET): int {
    if e.previousRoot == c.initialLER then 0 else e.previousDepositCount
  }

  /** A ForwardLET must name the tree before it, and after it the tree with exactly its leaves appended. */
  lemma ForwardChecksRoots(c: Chain, t: Tables, e: ForwardLET, pos: Option<nat>)
    ensures ApplyForward(c, t, e, pos).Ok? ==>
              var u := ApplyForward(c, t, e, pos).value.0;
              && Names(c, Hashes(t.tree), e.previousRoot) && e.newLeaves.Some? && FitsUint32(FirstIndex(c, e))
              && Hashes(u.tree) == Hashes(t.tree) + LeafHashes(c, e.newLeaves.value)
              && Names(c, Hashes(u.tree), e.newRoot) && e.blockNum in t.blocks
              && forall i :: 0 <= i < |t.forward| ==> !(t.forward[i].blockNum == e.blockNum && t.forward[i].blockPos == e.blockPos)
    ensures !Names(c, Hashes(t.tree), e.previousRoot) || e.newLeaves.None? || !FitsUint32(FirstIndex(c, e)) ==>
              ApplyForward(c, t, e, pos) == Fail(Rejected)
    ensures e.newLeaves.Some? && !Names(c, Hashes(t.tree) + LeafHashes(c, e.newLeaves.value), e.newRoot) ==>
              ApplyForward(c, t, e, pos).Fail?
    ensures e.newLeaves.Some? && FitsUint32(FirstIndex(c, e))
            && AppendLeaves(c, t, e, e.newLeaves.value, FirstIndex(c, e), ForwardStart(e, pos)).Ok?
            && !Names(c, Hashes(t.tree) + LeafHashes(c, e.newLeaves.value), e.newRoot) ==>
              ApplyForward(c, t, e, pos) == Fail(Rejected)
  {
    MatchesIffNamed(c, t, e.previousRoot);
    if e.newLeaves.Some? && FitsUint32(FirstIndex(c, e)) {
      var r := AppendLeaves(c, t, e, e.newLeaves.value, FirstIndex(c, e), ForwardStart(e, pos));
      if r.Ok? {
        AppendedHashes(c, t, e, e.newLeaves.value, FirstIndex(c, e), ForwardStart(e, pos));
        AppendKeepsRecords(c, t, e, e.newLeaves.value, FirstIndex(c, e), ForwardStart(e, pos));
        MatchesIffNamed(c, r.value, e.newRoot);
      }
    }
  }

  // ----- when the syncer halts -----

  /** A ForwardLET whose roots and leaves are in order halts the syncer if its leaves do not start at the end of the tree. */
  lemma MisplacedForwardHalts(c: Chain, t: Tables, e: ForwardLET, pos: Option<nat>)
    requires Names(c, Hashes(t.tree), e.previousRoot) && e.newLeaves.Some? && e.newLeaves.value != []
    requires FitsUint32(FirstIndex(c, e)) && FirstIndex(c, e) != |t.tree|
    ensures ApplyForward(c, t, e, pos) == Fail(InvalidIndex)
  {
    MatchesIffNamed(c, t, e.previousRoot);
  }

  /** A leaf is out of place: a bridge that is not the next exit, or a ForwardLET past its first checks. */
  ghost predicate OutOfPlace(c: Chain, t: Tables, e: Event) {
    match e
    case BridgeEvent(b) => b.depositCount != |t.tree|
    case BackwardEvent(_) => false
    case ForwardEvent(f) =>
      Names(c, Hashes(t.tree), f.previousRoot) && f.newLeaves.Some? && f.newLeaves.value != [] && FitsUint32(FirstIndex(c, f))
      && (FirstIndex(c, f) != |t.tree| || |t.tree| + |f.newLeaves.value| > TWO_32)
  }

  lemma {:induction false} AppendHalts(c: Chain, t: Tables, e: ForwardLET, leaves: seq<LeafData>, index: uint32, pos: nat)
    requires AppendLeaves(c, t, e, leaves, index, pos) == Fail(InvalidIndex)
    ensures leaves != [] && (index != |t.tree| || |t.tree| + |leaves| > TWO_32)
    decreases |leaves|
  {
    if leaves != [] && index == |t.tree| {
      var r := AddBridge(c, t, e.blockNum, ForwardBridge(t.archive, e, leaves[0], index, pos));
      if r.Ok? { AppendHalts(c, r.value, e, leaves[1..], NextUint32(index), pos + 1); }
    }
  }

  /** Only a leaf out of place halts the syncer; a bridge out of place always does. */
  lemma EventHalts(c: Chain, t: Tables, num: nat, e: Event, pos: Option<nat>)
    ensures ApplyEvent(c, t, num, e, pos) == Fail(InvalidIndex) ==> OutOfPlace(c, t, e)
    ensures e.BridgeEvent? && OutOfPlace(c, t, e) ==> ApplyEvent(c, t, num, e, pos) == Fail(InvalidIndex)
  {
    match e
    case BridgeEvent(b) =>
    case BackwardEvent(l) => BackwardAcceptedIff(c, t, l);
    case ForwardEvent(f) =>
      if ApplyForward(c, t, f, pos) == Fail(InvalidIndex) {
        MatchesIffNamed(c, t, f.previousRoot);
        AppendHalts(c, t, f, f.newLeaves.value, FirstIndex(c, f), ForwardStart(f, pos));
      }
  }

  /** The first event of a block that fails, and the tables it fails on. */
  lemma {:induction false} FirstFailure(c: Chain, t: Tables, num: nat, events: seq<Event>, pos: Option<nat>)
    returns (k: nat, u: Tables, p: Option<nat>)
    requires ApplyEvents(c, t, num, events, pos).Fail?
    ensures k < |events| && ApplyEvents(c, t, num, events[..k], pos) == Ok(u)
    ensures ApplyEvent(c, u, num, events[k], p).Fail?
    ensures ApplyEvent(c, u, num, events[k], p).why == ApplyEvents(c, t, num, events, pos).why
    decreases |events|
  {
    var r := ApplyEvent(c, t, num, events[0], pos);
    if r.Fail? {
      k, u, p := 0, t, pos;
    } else {
      k, u, p := FirstFailure(c, r.value.0, num, events[1..], r.value.1);
      k := k + 1;
      assert events[..k][0] == events[0] && events[..k][1..] == events[1..][..k - 1];
    }
  }

  /**
   A block halts the syncer only if some event of it, after those before it have
   been applied, has a leaf out of place; every other failure leaves it running.
   */
  lemma BlockHalts(c: Chain, s: Syncer, b: Block) returns (k: nat, u: Tables)
    requires !s.halted && ProcessBlock(c, s, b).halted
    ensures k < |b.events| && OutOfPlace(c, u, b.events[k])
    ensures ApplyEvents(c, s.tables.(blocks := s.tables.blocks + {b.num}), b.num, b.events[..k], None) == Ok(u)
  {
    var p;
    k, u, p := FirstFailure(c, s.tables.(blocks := s.tables.blocks + {b.num}), b.num, b.events, None);
    EventHalts(c, u, b.num, b.events[k], p);
  }

  /** A bridge that is not the next exit halts the syncer, whatever comes after it. */
  lemma {:induction false} BridgeOutOfPlaceHalts(
    c: Chain, t: Tables, num: nat, events: seq<Event>, pos: Option<nat>, k: nat, u: Tables)
    requires k < |events| && ApplyEvents(c, t, num, events[..k], pos) == Ok(u)
    requires events[k].BridgeEvent? && events[k].bridge.depositCount != |u.tree|
    ensures ApplyEvents(c, t, num, events, pos) == Fail(InvalidIndex)
    decreases |events|
  {
    if k > 0 {
      assert events[..k][0] == events[0] && events[..k][1..] == events[1..][..k - 1];
      var r := ApplyEvent(c, t, num, events[0], pos).value;
      BridgeOutOfPlaceHalts(c, r.0, num, events[1..], r.1, k - 1, u);
    } else {
      EventHalts(c, t, num, events[0], pos);
    }
  }

  lemma BadBridgeHaltsSyncer(c: Chain, s: Syncer, b: Block, k: nat, u: Tables)
    requires !s.halted && k < |b.events| && b.events[k].BridgeEvent? && b.events[k].bridge.depositCount != |u.tree|
    requires ApplyEvents(c, s.tables.(blocks := s.tables.blocks + {b.num}), b.num, b.events[..k], None) == Ok(u)
    ensures ProcessBlock(c, s, b) == Syncer(s.tables, true)
  {
    BridgeOutOfPlaceHalts(c, s.tables.(blocks := s.tables.blocks + {b.num}), b.num, b.events, None, k, u);
  }

  // ----- a bridge event -----

  /** The position a bridge gets: its own log position, or the running one once a ForwardLET has set it. */
  function PlaceOf(own: nat, pos: Option<nat>): nat {
    if pos.None? then own else pos.value
  }

  /** A bridge event adds its own row and the hash of its own content, and nothing else; says exactly when it is refused. */
  lemma BridgeIsStored(c: Chain, t: Tables, num: nat, b: Bridge, pos: Option<nat>)
    ensures var r := ApplyEvent(c, t, num, BridgeEvent(b), pos);
            var row := b.(blockPos := PlaceOf(b.blockPos, pos));
            && (r.Ok? ==> && r.value.0 == t.(bridge := t.bridge + [row],
                                             tree := t.tree + [Leaf(c.leafHash(b.leaf), num, row.blockPos)])
                          && r.value.1 == if pos.None? then None else Some(pos.value + 1))
            && (r == Fail(InvalidIndex) <==> b.depositCount != |t.tree|)
            && (r.Ok? <==> b.depositCount == |t.tree| && b.blockNum in t.blocks
                           && forall i :: 0 <= i < |t.bridge| ==>
                                !(t.bridge[i].blockNum == b.blockNum && t.bridge[i].blockPos == row.blockPos))
  {
    assert Placed(b, pos) == b.(blockPos := PlaceOf(b.blockPos, pos));
  }

  // ----- replaying events -----

  /** A row and its leaf. */
  datatype Stored = Stored(row: Bridge, leaf: Leaf)

  /** A row without what a ForwardLET can only guess. */
  function Plain(b: Bridge): Bridge {
    if b.source.FromForwardLET? then b.(txHash := ZERO_HASH, txnSender := ZERO_ADDRESS, fromAddress := None) else b
  }

  function Exits(t: Tables): (r: seq<Stored>)
    requires |t.bridge| == |t.tree|
    ensures |r| == |t.tree|
    ensures forall i :: 0 <= i < |r| ==> r[i] == Stored(Plain(t.bridge[i]), t.tree[i])
  {
    seq(|t.tree|, i requires 0 <= i < |t.tree| => Stored(Plain(t.bridge[i]), t.tree[i]))
  }

  /** The exit of a bridge event in block num. */
  function BridgeExit(c: Chain, num: nat, b: Bridge, pos: nat): Stored {
    Stored(Plain(b.(blockPos := pos)), Leaf(c.leafHash(b.leaf), num, pos))
  }

  /** The exit of one leaf of a ForwardLET, at a deposit count and a position. */
  function ForwardExit(c: Chain, e: ForwardLET, leaf: LeafData, index: uint32, pos: nat): Stored {
    Stored(Bridge(e.blockNum, pos, leaf, index, e.blockTimestamp, ZERO_HASH, None, ZERO_ADDRESS, ZERO_ADDRESS, FromForwardLET),
           Leaf(c.leafHash(leaf), e.blockNum, pos))
  }

  /** The exits of a ForwardLET, at consecutive deposit counts and positions. */
  function ForwardExits(c: Chain, e: ForwardLET, leaves: seq<LeafData>, index: nat, pos: nat): seq<Stored>
    requires index + |leaves| <= TWO_32
    decreases |leaves|
  {
    if leaves == [] then []
    else [ForwardExit(c, e, leaves[0], index, pos)] + ForwardExits(c, e, leaves[1..], index + 1, pos + 1)
  }

  /** What one event does to the exits and to the running position, or None for a ForwardLET without room or leaves. */
  function ReplayEvent(c: Chain, exits: seq<Stored>, num: nat, e: Event, pos: Option<nat>): Option<(seq<Stored>, Option<nat>)> {
    match e
    case BridgeEvent(b) =>
      Some((exits + [BridgeExit(c, num, b, PlaceOf(b.blockPos, pos))], if pos.None? then None else Some(pos.value + 1)))
    case BackwardEvent(l) =>
      Some((if 0 <= l.newDepositCount <= |exits| then exits[..l.newDepositCount] else exits, pos))
    case ForwardEvent(f) =>
      if f.newLeaves.None? || |exits| + |f.newLeaves.value| > TWO_32 then None
      else
        var start := PlaceOf(f.blockPos, pos);
        Some((exits + ForwardExits(c, f, f.newLeaves.value, |exits|, start), Some(start + |f.newLeaves.value|)))
  }

  function Replay(c: Chain, exits: seq<Stored>, num: nat, events: seq<Event>, pos: Option<nat>): Option<seq<Stored>>
    decreases |events|
  {
    if events == [] then Some(exits)
    else
      match ReplayEvent(c, exits, num, events[0], pos)
      case None => None
      case Some(r) => Replay(c, r.0, num, events[1..], r.1)
  }

  function ReplayBlocks(c: Chain, exits: seq<Stored>, blocks: seq<Block>): Option<seq<Stored>>
    decreases |blocks|
  {
    if blocks == [] then Some(exits)
    else
      match Replay(c, exits, blocks[0].num, blocks[0].events, None)
      case None => None
      case Some(r) => ReplayBlocks(c, r, blocks[1..])
  }

  lemma {:induction false} AppendReplays(
    c: Chain, t: Tables, e: ForwardLET, leaves: seq<LeafData>, index: uint32, pos: nat)
    requires Agree(c, t) && AppendLeaves(c, t, e, leaves, index, pos).Ok?
    ensures var u := AppendLeaves(c, t, e, leaves, index, pos).value;
            && Agree(c, u) && |t.tree| + |leaves| <= TWO_32
            && Exits(u) == Exits(t) + ForwardExits(c, e, leaves, |t.tree|, pos)
    decreases |leaves|
  {
    if leaves == [] {
      assert Exits(t) + [] == Exits(t);
    } else {
      var b := ForwardBridge(t.archive, e, leaves[0], index, pos);
      var t1 := AddBridge(c, t, e.blockNum, b).value;
      AddBridgeAgrees(c, t, e.blockNum, b);
      AppendReplays(c, t1, e, leaves[1..], NextUint32(index), pos + 1);
      var one := ForwardExit(c, e, leaves[0], |t.tree|, pos);
      assert Exits(t1) == Exits(t) + [one];
      ConcatIsAssociative(Exits(t), [one], ForwardExits(c, e, leaves[1..], |t.tree| + 1, pos + 1));
    }
  }

  lemma ForwardReplays(c: Chain, t: Tables, num: nat, f: ForwardLET, pos: Option<nat>)
    requires Agree(c, t) && ApplyForward(c, t, f, pos).Ok?
    ensures var r := ApplyForward(c, t, f, pos).value;
            Agree(c, r.0) && ReplayEvent(c, Exits(t), num, ForwardEvent(f), pos) == Some((Exits(r.0), Some(r.1)))
  {
    var index := if f.previousRoot != c.initialLER then f.previousDepositCount else 0;
    AppendReplays(c, t, f, f.newLeaves.value, index, ForwardStart(f, pos));
    var t1 := AppendLeaves(c, t, f, f.newLeaves.value, index, ForwardStart(f, pos)).value;
    assert Exits(ApplyForward(c, t, f, pos).value.0) == Exits(t1);
  }

  lemma BackwardReplays(c: Chain, t: Tables, num: nat, l: BackwardLET, pos: Option<nat>)
    requires Agree(c, t) && ApplyBackward(c, t, l).Ok?
    ensures var u := ApplyBackward(c, t, l).value;
            Agree(c, u) && ReplayEvent(c, Exits(t), num, BackwardEvent(l), pos) == Some((Exits(u), pos))
  {
    TruncateAgrees(c, t, l.newDepositCount);
    TruncateCuts(c, t, l.newDepositCount);
    var u := ApplyBackward(c, t, l).value;
    assert Exits(u) == Exits(t)[..Min(l.newDepositCount, |t.tree|)];
    assert Exits(t)[..|t.tree|] == Exits(t);
  }

  lemma BridgeReplays(c: Chain, t: Tables, num: nat, b: Bridge, pos: Option<nat>)
    requires Agree(c, t) && ApplyEvent(c, t, num, BridgeEvent(b), pos).Ok?
    ensures var r := ApplyEvent(c, t, num, BridgeEvent(b), pos).value;
            Agree(c, r.0) && ReplayEvent(c, Exits(t), num, BridgeEvent(b), pos) == Some((Exits(r.0), r.1))
  {
    BridgeIsStored(c, t, num, b, pos);
    EventAgrees(c, t, num, BridgeEvent(b), pos);
    assert Exits(ApplyEvent(c, t, num, BridgeEvent(b), pos).value.0)
        == Exits(t) + [BridgeExit(c, num, b, PlaceOf(b.blockPos, pos))];
  }

  lemma EventReplays(c: Chain, t: Tables, num: nat, e: Event, pos: Option<nat>)
    requires Agree(c, t) && ApplyEvent(c, t, num, e, pos).Ok?
    ensures var r := ApplyEvent(c, t, num, e, pos).value;
            Agree(c, r.0) && ReplayEvent(c, Exits(t), num, e, pos) == Some((Exits(r.0), r.1))
  {
    match e
    case BridgeEvent(b) => BridgeReplays(c, t, num, b, pos);
    case BackwardEvent(l) => BackwardReplays(c, t, num, l, pos);
    case ForwardEvent(f) => ForwardReplays(c, t, num, f, pos);
  }

  lemma {:induction false} EventsReplay(c: Chain, t: Tables, num: nat, events: seq<Event>, pos: Option<nat>)
    requires Agree(c, t) && ApplyEvents(c, t, num, events, pos).Ok?
    ensures var u := ApplyEvents(c, t, num, events, pos).value;
            Agree(c, u) && Replay(c, Exits(t), num, events, pos) == Some(Exits(u))
    decreases |events|
  {
    if events != [] {
      EventReplays(c, t, num, events[0], pos);
      var r := ApplyEvent(c, t, num, events[0], pos).value;
      EventsReplay(c, r.0, num, events[1..], r.1);
    }
  }

  /** A committed block leaves the rows and leaves its events say, in their order. */
  lemma BlockReplays(c: Chain, t: Tables, b: Block)
    requires Agree(c, t) && ApplyBlock(c, t, b).Ok?
    ensures var u := ApplyBlock(c, t, b).value;
            Agree(c, u) && Replay(c, Exits(t), b.num, b.events, None) == Some(Exits(u))
  {
    var t0 := t.(blocks := t.blocks + {b.num});
    EventsReplay(c, t0, b.num, b.events, None);
    assert Exits(t0) == Exits(t);
  }

  /** From an empty database, a committed run of blocks leaves the replay of its events. */
  lemma {:induction false} RunReplays(c: Chain, t: Tables, blocks: seq<Block>)
    requires Agree(c, t) && ApplyBlocks(c, t, blocks).Ok?
    ensures var u := ApplyBlocks(c, t, blocks).value;
            Agree(c, u) && ReplayBlocks(c, Exits(t), blocks) == Some(Exits(u))
    decreases |blocks|
  {
    if blocks != [] {
      BlockReplays(c, t, blocks[0]);
      RunReplays(c, ApplyBlock(c, t, blocks[0]).value, blocks[1..]);
    }
  }

  // ----- the event tables -----

  function ForwardsOf(events: seq<Event>): seq<ForwardLET>
    decreases |events|
  {
    if events == [] then []
    else (if events[0].ForwardEvent? then [events[0].forward] else []) + ForwardsOf(events[1..])
  }

  lemma EventIsRecorded(c: Chain, t: Tables, num: nat, e: Event, pos: Option<nat>)
    requires ApplyEvent(c, t, num, e, pos).Ok?
    ensures var u := ApplyEvent(c, t, num, e, pos).value.0;
            && u.backward == t.backward + LetsOf([e]) && u.forward == t.forward + ForwardsOf([e]) && u.blocks == t.blocks
  {
    assert [e][1..] == [];
    match e
    case BridgeEvent(b) => BridgeIsStored(c, t, num, b, pos);
    case BackwardEvent(l) => BackwardAcceptedIff(c, t, l);
    case ForwardEvent(f) =>
      var index := if f.previousRoot != c.initialLER then f.previousDepositCount else 0;
      AppendKeepsRecords(c, t, f, f.newLeaves.value, index, ForwardStart(f, pos));
  }

  lemma {:induction false} AppendKeepsRecords(
    c: Chain, t: Tables, e: ForwardLET, leaves: seq<LeafData>, index: uint32, pos: nat)
    requires AppendLeaves(c, t, e, leaves, index, pos).Ok?
    ensures var u := AppendLeaves(c, t, e, leaves, index, pos).value;
            u.backward == t.backward && u.forward == t.forward && u.blocks == t.blocks && u.archive == t.archive
    decreases |leaves|
  {
    if leaves != [] {
      var t1 := AddBridge(c, t, e.blockNum, ForwardBridge(t.archive, e, leaves[0], index, pos)).value;
      AppendKeepsRecords(c, t1, e, leaves[1..], NextUint32(index), pos + 1);
    }
  }

  lemma RecordsSplit(events: seq<Event>)
    requires events != []
    ensures LetsOf(events) == LetsOf([events[0]]) + LetsOf(events[1..])
    ensures ForwardsOf(events) == ForwardsOf([events[0]]) + ForwardsOf(events[1..])
  {
    assert [events[0]][1..] == [];
    assert LetsOf([events[0]]) == OwnLets(events[0]) && OwnLets(events[0]) + [] == OwnLets(events[0]);
  }

  lemma RecordsChain(t: Tables, t1: Tables, u: Tables, events: seq<Event>)
    requires events != []
    requires t1.backward == t.backward + LetsOf([events[0]]) && t1.forward == t.forward + ForwardsOf([events[0]])
    requires u.backward == t1.backward + LetsOf(events[1..]) && u.forward == t1.forward + ForwardsOf(events[1..])
    ensures u.backward == t.backward + LetsOf(events) && u.forward == t.forward + ForwardsOf(events)
  {
    RecordsSplit(events);
    ConcatIsAssociative(t.backward, LetsOf([events[0]]), LetsOf(events[1..]));
    ConcatIsAssociative(t.forward, ForwardsOf([events[0]]), ForwardsOf(events[1..]));
  }

  /** A committed block records its LET events, in their order, and itself. */
  lemma {:induction false} EventsAreRecorded(c: Chain, t: Tables, num: nat, events: seq<Event>, pos: Option<nat>)
    requires ApplyEvents(c, t, num, events, pos).Ok?
    ensures var u := ApplyEvents(c, t, num, events, pos).value;
            && u.backward == t.backward + LetsOf(events) && u.forward == t.forward + ForwardsOf(events) && u.blocks == t.blocks
    decreases |events|
  {
    if events == [] {
      assert t.backward + [] == t.backward && t.forward + [] == t.forward;
    } else {
      EventIsRecorded(c, t, num, events[0], pos);
      var r := ApplyEvent(c, t, num, events[0], pos).value;
      EventsAreRecorded(c, r.0, num, events[1..], r.1);
      RecordsChain(t, r.0, ApplyEvents(c, t, num, events, pos).value, events);
    }
  }

  // ----- the Source column -----

  /** A removed row is archived whole, marked as removed, unless its deposit count was archived before. */
  lemma RemovedRowsAreArchived(c: Chain, t: Tables, l: BackwardLET, d: nat)
    requires Agree(c, t) && ApplyBackward(c, t, l).Ok?
    ensures var u := ApplyBackward(c, t, l).value;
            && (d in t.archive ==> d in u.archive && u.archive[d] == t.archive[d])
            && (d !in t.archive ==> (d in u.archive <==> l.newDepositCount <= d < |t.bridge|))
            && (d !in t.archive && d in u.archive ==> u.archive[d] == t.bridge[d].(source := FromBackwardLET))
  {
    TruncateEffect(c, t, l.newDepositCount);
  }

  /** A row of the earlier blocks, or an archived one that counts as live again. */
  ghost predicate KeptOrLive(t: Tables, archive: map<nat, Bridge>, b: Bridge) {
    b in t.bridge || exists d :: d in archive && b == archive[d].(source := Live)
  }

  ghost predicate AllKeptOrLive(t: Tables, archive: map<nat, Bridge>, u: Tables) {
    forall i :: 0 <= i < |u.bridge| ==> KeptOrLive(t, archive, u.bridge[i])
  }

  ghost predicate IsArchived(archive: map<nat, Bridge>, b: Bridge) {
    exists d :: d in archive && b == archive[d]
  }

  lemma {:induction false} RestoreRowsAreLive(
    c: Chain, t0: Tables, archive: map<nat, Bridge>, t: Tables, rows: seq<Bridge>, removed: set<nat>)
    requires AllKeptOrLive(t0, archive, t) && RestoreRows(c, t, rows, removed).Ok?
    requires forall i :: 0 <= i < |rows| ==> IsArchived(archive, rows[i])
    ensures AllKeptOrLive(t0, archive, RestoreRows(c, t, rows, removed).value)
    ensures RestoreRows(c, t, rows, removed).value.archive == t.archive
    decreases |rows|
  {
    if rows != [] {
      if rows[0].depositCount in removed {
        RestoreRowsAreLive(c, t0, archive, t, rows[1..], removed);
      } else {
        var b := rows[0].(source := Live);
        var t1 := InsertBridge(t, b).value;
        var t2 := PutLeaf(t1, b.depositCount, Leaf(c.leafHash(b.leaf), b.blockNum, b.blockPos)).value;
        assert IsArchived(archive, rows[0]);
        assert KeptOrLive(t0, archive, b);
        RestoreRowsAreLive(c, t0, archive, t2, rows[1..], removed);
      }
    }
  }

  lemma {:induction false} ArchiveRowsAreArchived(archive: map<nat, Bridge>, lo: int, hi: int)
    ensures forall b :: b in ArchiveRows(archive, lo, hi) ==> IsArchived(archive, b)
    decreases hi - lo
  {
    if lo < hi {
      ArchiveRowsAreArchived(archive, lo + 1, hi);
      if lo in archive { assert IsArchived(archive, archive[lo]); }
    }
  }

  lemma {:induction false} RestoreIsLive(
    c: Chain, t0: Tables, archive: map<nat, Bridge>, t: Tables, lets: seq<BackwardLET>, removed: set<nat>)
    requires AllKeptOrLive(t0, archive, t) && Restore(c, t, lets, removed).Ok?
    requires forall d :: d in t.archive ==> d in archive && archive[d] == t.archive[d]
    ensures AllKeptOrLive(t0, archive, Restore(c, t, lets, removed).value)
    decreases |lets|
  {
    if lets != [] {
      var l := lets[0];
      var rows := ArchiveRows(t.archive, l.newDepositCount, l.previousDepositCount + 1);
      ArchiveRowsAreArchived(t.archive, l.newDepositCount, l.previousDepositCount + 1);
      forall i | 0 <= i < |rows| ensures IsArchived(archive, rows[i]) { assert IsArchived(t.archive, rows[i]); }
      RestoreRowsAreLive(c, t0, archive, t, rows, removed);
      var t1 := RestoreRows(c, t, rows, removed).value;
      RestoreIsLive(c, t0, archive, t1.(archive := WithoutRange(t1.archive, l.newDepositCount, l.previousDepositCount)),
                    lets[1..], removed);
    }
  }

  /** After a reorg every row is one of the earlier blocks as it was, or an archived one marked live again. */
  lemma RestoredRowsAreLive(c: Chain, t: Tables, first: nat)
    requires ApplyReorg(c, t, first).Ok?
    ensures AllKeptOrLive(DropBlocks(t, first), t.archive, ApplyReorg(c, t, first).value)
  {
    var lets := BackwardFrom(t.backward, first);
    RestoreIsLive(c, DropBlocks(t, first), t.archive, DropBlocks(t, first), lets,
                  if lets == [] then {} else ReorgedDepositCounts(t.archive, first));
  }
}
