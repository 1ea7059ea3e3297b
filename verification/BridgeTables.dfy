/**
 The database side of the L2 bridge syncer: the tables ProcessBlock and Reorg
 work on, and what each event does to them inside one transaction.

 An Event record of the source has one optional field per event kind, handled
 in the order Bridge, BackwardLET, ForwardLET; here each present field is one
 Event value, in that same order.
 */
module BridgeTables {
  import opened Prelude

  type Address = int

  const ZERO_HASH: Hash := 0
  const ZERO_ADDRESS: Address := 0

  /** The seven fields an exit-tree leaf commits to. */
  datatype LeafData = LeafData(
    leafType: nat,
    originNetwork: uint32,
    originAddress: Address,
    destinationNetwork: uint32,
    destinationAddress: Address,
    amount: nat,
    metadata: seq<nat>)

  datatype BridgeSource = Live | FromBackwardLET | FromForwardLET

  /** A row of the bridge table, and of bridge_archive. */
  datatype Bridge = Bridge(
    blockNum: nat,
    blockPos: nat,
    leaf: LeafData,
    depositCount: uint32,
    blockTimestamp: nat,
    txHash: Hash,
    fromAddress: Option<Address>,
    txnSender: Address,
    toAddress: Address,
    source: BridgeSource)

  datatype BackwardLET = BackwardLET(
    blockNum: nat,
    blockPos: nat,
    previousDepositCount: int,
    previousRoot: Hash,
    newDepositCount: int,
    newRoot: Hash)

  /** newLeaves is None when the leaf bytes of the event do not decode. */
  datatype ForwardLET = ForwardLET(
    blockNum: nat,
    blockPos: nat,
    blockTimestamp: nat,
    txnHash: Hash,
    previousDepositCount: int,
    previousRoot: Hash,
    newDepositCount: int,
    newRoot: Hash,
    newLeaves: Option<seq<LeafData>>)

  datatype Event =
    | BridgeEvent(bridge: Bridge)
    | BackwardEvent(backward: BackwardLET)
    | ForwardEvent(forward: ForwardLET)

  datatype Block = Block(num: nat, events: seq<Event>)

  /** One leaf of the exit tree, at the index it has in Tables.tree. */
  datatype Leaf = Leaf(hash: Hash, blockNum: nat, blockPos: nat)

  datatype Tables = Tables(
    blocks: set<nat>,
    bridge: seq<Bridge>,
    archive: map<nat, Bridge>,
    backward: seq<BackwardLET>,
    forward: seq<ForwardLET>,
    tree: seq<Leaf>)

  const EMPTY_TABLES: Tables := Tables({}, [], map[], [], [], [])

  /** What the syncer takes from elsewhere: the hash functions and the root of the empty exit tree. */
  datatype Chain = Chain(
    leafHash: LeafData -> Hash,
    rootOf: seq<Hash> -> Hash,
    initialLER: Hash)

  /** InvalidIndex is the exit tree refusing a leaf, the one failure that halts the syncer. */
  datatype Failure = InvalidIndex | Rejected

  datatype Result<+T> = Ok(value: T) | Fail(why: Failure)

  // ----- the exit tree -----

  function Hashes(tree: seq<Leaf>): (r: seq<Hash>)
    ensures |r| == |tree|
    ensures forall i :: 0 <= i < |tree| ==> r[i] == tree[i].hash
  {
    seq(|tree|, i requires 0 <= i < |tree| => tree[i].hash)
  }

  function PutLeaf(t: Tables, index: nat, leaf: Leaf): Result<Tables> {
    if index != |t.tree| then Fail(InvalidIndex) else Ok(t.(tree := t.tree + [leaf]))
  }

  /** Keep the first n leaves: BackwardToIndex(n - 1), or a full clear when n is 0. */
  function KeepLeaves(tree: seq<Leaf>, n: nat): seq<Leaf> {
    if n < |tree| then tree[..n] else tree
  }

  function LastRoot(c: Chain, t: Tables): Hash {
    if t.tree == [] then ZERO_HASH else c.rootOf(Hashes(t.tree))
  }

  /** sanityCheckLatestLER: the initial LER stands for the empty tree. */
  predicate MatchesLER(c: Chain, t: Tables, ler: Hash) {
    if ler == c.initialLER then LastRoot(c, t) == ZERO_HASH else LastRoot(c, t) == ler
  }

  // ----- bridge rows -----

  predicate SameKey(a: Bridge, b: Bridge) {
    a.blockNum == b.blockNum && a.blockPos == b.blockPos
  }

  /** The primary key is (block_num, block_pos), and block_num must be a stored block. */
  function InsertBridge(t: Tables, b: Bridge): Result<Tables> {
    if b.blockNum !in t.blocks || exists i :: 0 <= i < |t.bridge| && SameKey(t.bridge[i], b) then Fail(Rejected)
    else Ok(t.(bridge := t.bridge + [b]))
  }

  /** A bridge row together with its leaf, whose index the tree checks first. */
  function AddBridge(c: Chain, t: Tables, leafBlock: nat, b: Bridge): Result<Tables> {
    match PutLeaf(t, b.depositCount, Leaf(c.leafHash(b.leaf), leafBlock, b.blockPos))
    case Fail(why) => Fail(why)
    case Ok(t1) => InsertBridge(t1, b)
  }

  function Below(rows: seq<Bridge>, n: nat): seq<Bridge> {
    Filter(rows, (b: Bridge) => b.depositCount < n)
  }

  function AtOrAbove(rows: seq<Bridge>, n: nat): seq<Bridge> {
    Filter(rows, (b: Bridge) => b.depositCount >= n)
  }

  function Archived(b: Bridge): Bridge {
    b.(source := FromBackwardLET)
  }

  /** Archive the rows one by one; a deposit count that is already archived keeps its old row. */
  function ArchiveAll(archive: map<nat, Bridge>, rows: seq<Bridge>): map<nat, Bridge>
    decreases |rows|
  {
    if rows == [] then archive
    else
      var b := rows[0];
      var next := if b.depositCount in archive then archive else archive[b.depositCount := Archived(b)];
      ArchiveAll(next, rows[1..])
  }

  // ----- events -----

  predicate FitsUint32(n: int) {
    0 <= n < TWO_32
  }

  function ArchiveAndDeleteFrom(t: Tables, n: nat): Tables {
    t.(archive := ArchiveAll(t.archive, AtOrAbove(t.bridge, n)), bridge := Below(t.bridge, n))
  }

  function TruncateTo(t: Tables, n: nat): Tables {
    var t1 := ArchiveAndDeleteFrom(t, n);
    t1.(tree := KeepLeaves(t1.tree, n))
  }

  function InsertBackward(t: Tables, e: BackwardLET): Result<Tables> {
    if e.blockNum !in t.blocks
       || exists i :: 0 <= i < |t.backward| && t.backward[i].blockNum == e.blockNum && t.backward[i].blockPos == e.blockPos
    then Fail(Rejected)
    else Ok(t.(backward := t.backward + [e]))
  }

  function ApplyBackward(c: Chain, t: Tables, e: BackwardLET): Result<Tables> {
    if !MatchesLER(c, t, e.previousRoot) || !FitsUint32(e.newDepositCount) then Fail(Rejected)
    else
      var t1 := TruncateTo(t, e.newDepositCount);
      if !MatchesLER(c, t1, e.newRoot) then Fail(Rejected) else InsertBackward(t1, e)
  }

  /** What a ForwardLET leaf cannot carry and the archive may still know. */
  datatype Provenance = Provenance(txHash: Hash, txnSender: Address, fromAddress: Option<Address>)

  function ArchivedAs(archive: map<nat, Bridge>, leaf: LeafData): set<nat> {
    set d | d in archive && archive[d].leaf == leaf
  }

  /** Exactly one archived row with this content supplies its provenance; otherwise the event does. */
  function ProvenanceOf(archive: map<nat, Bridge>, leaf: LeafData, e: ForwardLET): Provenance {
    var found := ArchivedAs(archive, leaf);
    if |found| == 1 then
      assert forall x, y :: x in found && y in found ==> x == y by {
        forall x, y | x in found && y in found ensures x == y { SingletonIsUnique(found, x, y); }
      }
      var d :| d in found;
      Provenance(archive[d].txHash, archive[d].txnSender, archive[d].fromAddress)
    else Provenance(e.txnHash, ZERO_ADDRESS, None)
  }

  function ForwardBridge(archive: map<nat, Bridge>, e: ForwardLET, leaf: LeafData, index: uint32, pos: nat): Bridge {
    var p := ProvenanceOf(archive, leaf, e);
    Bridge(e.blockNum, pos, leaf, index, e.blockTimestamp, p.txHash, p.fromAddress, p.txnSender, ZERO_ADDRESS, FromForwardLET)
  }

  function NextUint32(n: uint32): uint32 {
    (n + 1) % TWO_32
  }

  function AppendLeaves(c: Chain, t: Tables, e: ForwardLET, leaves: seq<LeafData>, index: uint32, pos: nat): Result<Tables>
    decreases |leaves|
  {
    if leaves == [] then Ok(t)
    else
      match AddBridge(c, t, e.blockNum, ForwardBridge(t.archive, e, leaves[0], index, pos))
      case Fail(why) => Fail(why)
      case Ok(t1) => AppendLeaves(c, t1, e, leaves[1..], NextUint32(index), pos + 1)
  }

  function InsertForward(t: Tables, e: ForwardLET): Result<Tables> {
    if e.blockNum !in t.blocks
       || exists i :: 0 <= i < |t.forward| && t.forward[i].blockNum == e.blockNum && t.forward[i].blockPos == e.blockPos
    then Fail(Rejected)
    else Ok(t.(forward := t.forward + [e]))
  }

  function ForwardStart(e: ForwardLET, pos: Option<nat>): nat {
    if pos.Some? then pos.value else e.blockPos
  }

  /** The result carries the block position that follows the last appended leaf. */
  function ApplyForward(c: Chain, t: Tables, e: ForwardLET, pos: Option<nat>): Result<(Tables, nat)> {
    if !MatchesLER(c, t, e.previousRoot) || e.newLeaves.None? then Fail(Rejected)
    else if e.previousRoot != c.initialLER && !FitsUint32(e.previousDepositCount) then Fail(Rejected)
    else
      var index := if e.previousRoot != c.initialLER then e.previousDepositCount else 0;
      var start := ForwardStart(e, pos);
      match AppendLeaves(c, t, e, e.newLeaves.value, index, start)
      case Fail(why) => Fail(why)
      case Ok(t1) =>
        if !MatchesLER(c, t1, e.newRoot) then Fail(Rejected)
        else
          match InsertForward(t1, e)
          case Fail(why) => Fail(why)
          case Ok(t2) => Ok((t2, start + |e.newLeaves.value|))
  }

  /** A bridge keeps its log position until a ForwardLET of the same block has moved the positions on. */
  function Placed(b: Bridge, pos: Option<nat>): Bridge {
    if pos.Some? then b.(blockPos := pos.value) else b
  }

  function Advanced(pos: Option<nat>): Option<nat> {
    if pos.Some? then Some(pos.value + 1) else None
  }

  function ApplyEvent(c: Chain, t: Tables, num: nat, e: Event, pos: Option<nat>): Result<(Tables, Option<nat>)> {
    match e
    case BridgeEvent(b) =>
      (match AddBridge(c, t, num, Placed(b, pos))
       case Fail(why) => Fail(why)
       case Ok(t1) => Ok((t1, Advanced(pos))))
    case BackwardEvent(b) =>
      (match ApplyBackward(c, t, b)
       case Fail(why) => Fail(why)
       case Ok(t1) => Ok((t1, pos)))
    case ForwardEvent(f) =>
      (match ApplyForward(c, t, f, pos)
       case Fail(why) => Fail(why)
       case Ok(r) => Ok((r.0, Some(r.1))))
  }

  function ApplyEvents(c: Chain, t: Tables, num: nat, events: seq<Event>, pos: Option<nat>): Result<Tables>
    decreases |events|
  {
    if events == [] then Ok(t)
    else
      match ApplyEvent(c, t, num, events[0], pos)
      case Fail(why) => Fail(why)
      case Ok(r) => ApplyEvents(c, r.0, num, events[1..], r.1)
  }

  /** The whole transaction of ProcessBlock. */
  function ApplyBlock(c: Chain, t: Tables, b: Block): Result<Tables> {
    ApplyEvents(c, t.(blocks := t.blocks + {b.num}), b.num, b.events, None)
  }

  // ----- reorg -----

  function BackwardFrom(rows: seq<BackwardLET>, first: nat): seq<BackwardLET> {
    Filter(rows, (l: BackwardLET) => l.blockNum >= first)
  }

  /** Deleting the blocks cascades to every table that refers to them; bridge_archive does not. */
  function DropBlocks(t: Tables, first: nat): Tables {
    Tables(
      (set n | n in t.blocks && n < first),
      Filter(t.bridge, (b: Bridge) => b.blockNum < first),
      t.archive,
      Filter(t.backward, (l: BackwardLET) => l.blockNum < first),
      Filter(t.forward, (f: ForwardLET) => f.blockNum < first),
      Filter(t.tree, (l: Leaf) => l.blockNum < first))
  }

  function ReorgedDepositCounts(archive: map<nat, Bridge>, first: nat): set<nat> {
    set d | d in archive && archive[d].blockNum >= first
  }

  /** Archived rows with lo <= deposit count < hi, ascending. */
  function ArchiveRows(archive: map<nat, Bridge>, lo: int, hi: int): seq<Bridge>
    decreases hi - lo
  {
    if lo >= hi then []
    else (if lo in archive then [archive[lo]] else []) + ArchiveRows(archive, lo + 1, hi)
  }

  function RestoreRows(c: Chain, t: Tables, rows: seq<Bridge>, removed: set<nat>): Result<Tables>
    decreases |rows|
  {
    if rows == [] then Ok(t)
    else if rows[0].depositCount in removed then RestoreRows(c, t, rows[1..], removed)
    else
      var b := rows[0].(source := Live);
      match InsertBridge(t, b)
      case Fail(why) => Fail(why)
      case Ok(t1) =>
        match PutLeaf(t1, b.depositCount, Leaf(c.leafHash(b.leaf), b.blockNum, b.blockPos))
        case Fail(why) => Fail(why)
        case Ok(t2) => RestoreRows(c, t2, rows[1..], removed)
  }

  function WithoutRange(archive: map<nat, Bridge>, lo: int, hi: int): map<nat, Bridge> {
    map d | d in archive && !(lo <= d <= hi) :: archive[d]
  }

  predicate FitsUint64(n: int) {
    0 <= n < TWO_64
  }

  function Restore(c: Chain, t: Tables, lets: seq<BackwardLET>, removed: set<nat>): Result<Tables>
    decreases |lets|
  {
    if lets == [] then Ok(t)
    else
      var l := lets[0];
      if !FitsUint64(l.previousDepositCount) || !FitsUint64(l.newDepositCount) then Fail(Rejected)
      else
        match RestoreRows(c, t, ArchiveRows(t.archive, l.newDepositCount, l.previousDepositCount + 1), removed)
        case Fail(why) => Fail(why)
        case Ok(t1) =>
          Restore(c, t1.(archive := WithoutRange(t1.archive, l.newDepositCount, l.previousDepositCount)), lets[1..], removed)
  }

  /** The whole transaction of Reorg. */
  function ApplyReorg(c: Chain, t: Tables, first: nat): Result<Tables> {
    var lets := BackwardFrom(t.backward, first);
    var removed := if lets == [] then {} else ReorgedDepositCounts(t.archive, first);
    Restore(c, DropBlocks(t, first), lets, removed)
  }
}
