/**
 A BackwardLET followed by a ForwardLET that carries the removed leaves: the
 recovery the two events exist for.
 */
module BridgeRoundTrip {
  import opened Prelude
  import opened BridgeTables
  import opened BridgeAgreement
  import opened BridgeOrder

  function Leaves(rows: seq<Bridge>): (r: seq<LeafData>)
    ensures |r| == |rows|
    ensures forall i :: 0 <= i < |rows| ==> r[i] == rows[i].leaf
  {
    seq(|rows|, i requires 0 <= i < |rows| => rows[i].leaf)
  }

  function ProvenanceIn(b: Bridge): Provenance {
    Provenance(b.txHash, b.txnSender, b.fromAddress)
  }

  /** The row and the leaf a ForwardLET adds for one of its leaves. */
  ghost predicate RowFor(c: Chain, archive: map<nat, Bridge>, e: ForwardLET, data: LeafData, pos: nat, b: Bridge, l: Leaf) {
    && l == Leaf(c.leafHash(data), e.blockNum, pos)
    && b.leaf == data
    && ProvenanceIn(b) == ProvenanceOf(archive, data, e)
  }

  /** From t to u: one row and one leaf per element of leaves, in order, and nothing else. */
  ghost predicate Appended(c: Chain, t: Tables, u: Tables, e: ForwardLET, leaves: seq<LeafData>, pos: nat) {
    && u == t.(bridge := u.bridge, tree := u.tree)
    && |t.bridge| == |t.tree|
    && |u.bridge| == |u.tree| == |t.bridge| + |leaves|
    && t.bridge <= u.bridge && t.tree <= u.tree
    && forall i :: |t.bridge| <= i < |u.bridge| ==>
         RowFor(c, t.archive, e, leaves[i - |t.bridge|], pos + i - |t.bridge|, u.bridge[i], u.tree[i])
  }

  lemma {:induction false} AppendEffect(
    c: Chain, t: Tables, e: ForwardLET, leaves: seq<LeafData>, index: uint32, pos: nat)
    requires |t.bridge| == |t.tree| && AppendLeaves(c, t, e, leaves, index, pos).Ok?
    ensures Appended(c, t, AppendLeaves(c, t, e, leaves, index, pos).value, e, leaves, pos)
    decreases |leaves|
  {
    if leaves != [] {
      var b := ForwardBridge(t.archive, e, leaves[0], index, pos);
      var t1 := AddBridge(c, t, e.blockNum, b).value;
      AppendEffect(c, t1, e, leaves[1..], NextUint32(index), pos + 1);
      AppendedCons(c, t, t1, AppendLeaves(c, t, e, leaves, index, pos).value, e, leaves, pos, b);
    }
  }

  lemma AppendedCons(
    c: Chain, t: Tables, t1: Tables, u: Tables, e: ForwardLET, leaves: seq<LeafData>, pos: nat, b: Bridge)
    requires leaves != [] && |t.bridge| == |t.tree|
    requires t1 == t.(bridge := t.bridge + [b], tree := t.tree + [Leaf(c.leafHash(b.leaf), e.blockNum, pos)])
    requires b.leaf == leaves[0] && ProvenanceIn(b) == ProvenanceOf(t.archive, leaves[0], e)
    requires Appended(c, t1, u, e, leaves[1..], pos + 1)
    ensures Appended(c, t, u, e, leaves, pos)
  {
    var n := |t.bridge|;
    assert u.bridge[n] == t1.bridge[n] && u.tree[n] == t1.tree[n];
    forall i | n <= i < |u.bridge|
      ensures RowFor(c, t.archive, e, leaves[i - n], pos + i - n, u.bridge[i], u.tree[i])
    {
      if i > n {
        assert leaves[i - n] == leaves[1..][i - n - 1];
      }
    }
  }

  /** Leaves that start where the tree ends are always accepted, while the tree has room. */
  lemma {:induction false} AppendSucceeds(
    c: Chain, t: Tables, e: ForwardLET, leaves: seq<LeafData>, index: uint32, pos: nat, floor: nat)
    requires Good(c, t) && Open(t, e.blockNum, Some(pos), floor)
    requires leaves != [] ==> index == |t.tree|
    requires |t.tree| + |leaves| <= TWO_32
    ensures AppendLeaves(c, t, e, leaves, index, pos).Ok?
    decreases |leaves|
  {
    if leaves != [] {
      var b := ForwardBridge(t.archive, e, leaves[0], index, pos);
      forall i | 0 <= i < |t.bridge| ensures !SameKey(t.bridge[i], b) {
        assert t.tree[i].blockNum == t.bridge[i].blockNum && t.tree[i].blockPos == t.bridge[i].blockPos;
      }
      AddBridgeGood(c, t, e.blockNum, b, floor);
      AppendSucceeds(c, AddBridge(c, t, e.blockNum, b).value, e, leaves[1..], NextUint32(index), pos + 1, floor);
    }
  }

  /** Row i is the only one from n on with its content. */
  ghost predicate UniqueFrom(rows: seq<Bridge>, n: nat, i: nat)
    requires n <= i < |rows|
  {
    forall j :: n <= j < |rows| && j != i ==> rows[j].leaf != rows[i].leaf
  }

  /** The old provenance of row i when its content is unique among the removed rows, else what the event offers. */
  ghost function Recovered(rows: seq<Bridge>, n: nat, i: nat, e: ForwardLET): Provenance
    requires n <= i < |rows|
  {
    if UniqueFrom(rows, n, i) then ProvenanceIn(rows[i]) else Provenance(e.txnHash, ZERO_ADDRESS, None)
  }

  /** After archiving rows n.. into an empty archive, a lookup by content finds row i alone exactly when it is unique. */
  lemma LookupFindsUnique(rows: seq<Bridge>, archive: map<nat, Bridge>, n: nat, i: nat, e: ForwardLET)
    requires n <= i < |rows|
    requires forall d :: d in archive <==> n <= d < |rows|
    requires forall d :: n <= d < |rows| ==> archive[d] == Archived(rows[d])
    ensures ProvenanceOf(archive, rows[i].leaf, e) == Recovered(rows, n, i, e)
  {
    var found := ArchivedAs(archive, rows[i].leaf);
    assert i in found;
    if UniqueFrom(rows, n, i) {
      assert found == {i};
    } else {
      var j :| n <= j < |rows| && j != i && rows[j].leaf == rows[i].leaf;
      assert j in found;
      if |found| == 1 {
        SingletonIsUnique(found, i, j);
      }
    }
  }

  /** A BackwardLET over an empty archive: both tables cut at n, and exactly the cut rows archived. */
  lemma BackwardEffect(c: Chain, t: Tables, l: BackwardLET, u: Tables)
    requires Good(c, t) && t.archive == map[] && ApplyBackward(c, t, l) == Ok(u)
    requires l.newDepositCount <= |t.bridge|
    ensures Agree(c, u)
    ensures u.bridge == t.bridge[..l.newDepositCount] && u.tree == t.tree[..l.newDepositCount]
    ensures u == t.(bridge := u.bridge, tree := u.tree, archive := u.archive, backward := u.backward)
    ensures forall d :: d in u.archive <==> l.newDepositCount <= d < |t.bridge|
    ensures forall d :: l.newDepositCount <= d < |t.bridge| ==> u.archive[d] == Archived(t.bridge[d])
  {
    TruncateEffect(c, t, l.newDepositCount);
    TruncateAgrees(c, t, l.newDepositCount);
  }

  lemma ForwardEffect(c: Chain, u: Tables, f: ForwardLET, pos: Option<nat>, v: Tables, p: nat)
    requires Agree(c, u) && ApplyForward(c, u, f, pos) == Ok((v, p))
    ensures Agree(c, v) && f.newLeaves.Some?
    ensures Appended(c, u.(forward := v.forward), v, f, f.newLeaves.value, ForwardStart(f, pos))
  {
    var index := if f.previousRoot != c.initialLER then f.previousDepositCount else 0;
    AppendEffect(c, u, f, f.newLeaves.value, index, ForwardStart(f, pos));
    AppendLeavesAgrees(c, u, f, f.newLeaves.value, index, ForwardStart(f, pos));
  }

  /** Leaves and root as in t, rows below n as in t, and from n on the content of t with what provenance is recoverable. */
  ghost predicate Restored(c: Chain, t: Tables, v: Tables, n: nat, f: ForwardLET) {
    && Hashes(v.tree) == Hashes(t.tree)
    && LastRoot(c, v) == LastRoot(c, t)
    && n <= |v.bridge| == |t.bridge|
    && v.bridge[..n] == t.bridge[..n]
    && forall i :: n <= i < |t.bridge| ==>
         && v.bridge[i].depositCount == t.bridge[i].depositCount
         && v.bridge[i].leaf == t.bridge[i].leaf
         && ProvenanceIn(v.bridge[i]) == Recovered(t.bridge, n, i, f)
  }

  /**
   From an empty archive, back to n and forward with the removed leaves, in the
   same block or a later one: the leaf sequence and the root are restored, the
   rows below n are untouched, and each row from n on has its old content, with
   its old transaction hash, sender and from-address exactly when no other
   removed row has that content.
   */
  lemma BackwardForwardRestores(
    c: Chain, t: Tables, l: BackwardLET, f: ForwardLET, blocks: set<nat>, pos: Option<nat>, u: Tables, v: Tables, p: nat)
    requires Good(c, t) && t.archive == map[]
    requires ApplyBackward(c, t, l) == Ok(u)
    requires l.newDepositCount <= |t.bridge| && f.newLeaves == Some(Leaves(t.bridge[l.newDepositCount..]))
    requires ApplyForward(c, u.(blocks := blocks), f, pos) == Ok((v, p))
    ensures Restored(c, t, v, l.newDepositCount, f)
  {
    BackwardEffect(c, t, l, u);
    var w := u.(blocks := blocks);
    ForwardEffect(c, w, f, pos, v, p);
    RestoredFrom(c, t, w.(forward := v.forward), v, f, ForwardStart(f, pos), l.newDepositCount);
  }

  lemma RestoredFrom(c: Chain, t: Tables, u: Tables, v: Tables, f: ForwardLET, pos: nat, n: nat)
    requires Agree(c, t) && Agree(c, v) && n <= |t.bridge|
    requires u.bridge == t.bridge[..n] && u.tree == t.tree[..n]
    requires forall d :: d in u.archive <==> n <= d < |t.bridge|
    requires forall d :: n <= d < |t.bridge| ==> u.archive[d] == Archived(t.bridge[d])
    requires Appended(c, u, v, f, Leaves(t.bridge[n..]), pos)
    ensures Restored(c, t, v, n, f)
  {
    SameLeaves(c, t, u, v, f, pos, n);
    assert v.bridge[..n] == t.bridge[..n];
    forall i | n <= i < |t.bridge|
      ensures v.bridge[i].leaf == t.bridge[i].leaf && ProvenanceIn(v.bridge[i]) == Recovered(t.bridge, n, i, f)
    {
      RowRestored(c, t, u, v, f, pos, n, i);
    }
  }

  lemma RowRestored(c: Chain, t: Tables, u: Tables, v: Tables, f: ForwardLET, pos: nat, n: nat, i: nat)
    requires n <= i < |t.bridge| && u.bridge == t.bridge[..n]
    requires forall d :: d in u.archive <==> n <= d < |t.bridge|
    requires forall d :: n <= d < |t.bridge| ==> u.archive[d] == Archived(t.bridge[d])
    requires Appended(c, u, v, f, Leaves(t.bridge[n..]), pos)
    ensures v.bridge[i].leaf == t.bridge[i].leaf && ProvenanceIn(v.bridge[i]) == Recovered(t.bridge, n, i, f)
  {
    assert Leaves(t.bridge[n..])[i - n] == t.bridge[i].leaf;
    LookupFindsUnique(t.bridge, u.archive, n, i, f);
  }

  lemma OldLeaf(c: Chain, u: Tables, v: Tables, f: ForwardLET, leaves: seq<LeafData>, pos: nat, i: nat)
    requires Appended(c, u, v, f, leaves, pos) && i < |u.tree|
    ensures i < |v.tree| && v.tree[i].hash == u.tree[i].hash
  {
  }

  lemma NewLeaf(c: Chain, u: Tables, v: Tables, f: ForwardLET, leaves: seq<LeafData>, pos: nat, i: nat)
    requires Appended(c, u, v, f, leaves, pos) && i < |leaves|
    ensures |u.tree| + i < |v.tree| && v.tree[|u.tree| + i].hash == c.leafHash(leaves[i])
  {
  }

  /** Re-appending the contents of rows n.. brings back the old leaf hashes. */
  lemma SameLeaves(c: Chain, t: Tables, u: Tables, v: Tables, f: ForwardLET, pos: nat, n: nat)
    requires Agree(c, t) && n <= |t.bridge|
    requires u.bridge == t.bridge[..n] && u.tree == t.tree[..n]
    requires Appended(c, u, v, f, Leaves(t.bridge[n..]), pos)
    ensures Hashes(v.tree) == Hashes(t.tree)
  {
    var leaves := Leaves(t.bridge[n..]);
    forall i | 0 <= i < |t.tree| ensures v.tree[i].hash == t.tree[i].hash {
      if i < n {
        OldLeaf(c, u, v, f, leaves, pos, i);
      } else {
        NewLeaf(c, u, v, f, leaves, pos, i - n);
        assert leaves[i - n] == t.bridge[i].leaf;
      }
    }
  }

  /** A ForwardLET that names the roots and deposit count the BackwardLET left behind, and a new place of its own. */
  ghost predicate Answers(c: Chain, t: Tables, l: BackwardLET, u: Tables, f: ForwardLET) {
    && 0 <= l.newDepositCount <= |t.bridge| && f.newLeaves == Some(Leaves(t.bridge[l.newDepositCount..]))
    && f.previousRoot == l.newRoot && f.newRoot == l.previousRoot
    && f.previousDepositCount == |u.tree| && (f.previousRoot == c.initialLER ==> u.tree == [])
    && forall i :: 0 <= i < |t.forward| ==> !(t.forward[i].blockNum == f.blockNum && t.forward[i].blockPos == f.blockPos)
  }

  /** Such a ForwardLET is accepted in any block that is open on the tables the BackwardLET left. */
  lemma ForwardAfterBackwardIsAccepted(
    c: Chain, t: Tables, l: BackwardLET, f: ForwardLET, blocks: set<nat>, pos: Option<nat>, floor: nat, u: Tables)
    requires Good(c, t) && t.archive == map[] && ApplyBackward(c, t, l) == Ok(u) && Answers(c, t, l, u, f)
    requires var w := u.(blocks := blocks);
             Good(c, w) && Open(w, f.blockNum, Some(ForwardStart(f, pos)), floor)
    ensures ApplyForward(c, u.(blocks := blocks), f, pos).Ok?
  {
    var w := u.(blocks := blocks);
    var index := if f.previousRoot != c.initialLER then f.previousDepositCount else 0;
    BackwardEffect(c, t, l, u);
    var t1 := LeavesComeBack(c, t, w, f, index, ForwardStart(f, pos), floor, l.newDepositCount);
    RootsMatch(c, t, l, u);
    ForwardAccepted(c, w, f, pos, index, t1);
  }

  /** The removed leaves are accepted one by one and bring the old hashes back. */
  lemma LeavesComeBack(c: Chain, t: Tables, w: Tables, f: ForwardLET, index: uint32, pos: nat, floor: nat, n: nat)
    returns (t1: Tables)
    requires Good(c, t) && Good(c, w) && Open(w, f.blockNum, Some(pos), floor)
    requires n <= |t.bridge| && w.bridge == t.bridge[..n] && w.tree == t.tree[..n]
    requires f.newLeaves == Some(Leaves(t.bridge[n..])) && index == |w.tree|
    ensures AppendLeaves(c, w, f, f.newLeaves.value, index, pos) == Ok(t1)
    ensures Hashes(t1.tree) == Hashes(t.tree) && t1.blocks == w.blocks && t1.forward == w.forward
  {
    var leaves := f.newLeaves.value;
    AppendSucceeds(c, w, f, leaves, index, pos, floor);
    t1 := AppendLeaves(c, w, f, leaves, index, pos).value;
    AppendEffect(c, w, f, leaves, index, pos);
    SameLeaves(c, t, w, t1, f, pos, n);
  }

  /** Recovery within one block. */
  lemma RecoveryInOneBlock(c: Chain, t: Tables, l: BackwardLET, f: ForwardLET, num: nat, pos: Option<nat>, floor: nat, u: Tables)
    requires Good(c, t) && Open(t, num, pos, floor) && t.archive == map[]
    requires ApplyBackward(c, t, l) == Ok(u) && Answers(c, t, l, u, f)
    requires l.blockNum == f.blockNum == num && floor <= l.blockPos < f.blockPos
    ensures ApplyForward(c, u, f, pos).Ok?
    ensures Restored(c, t, ApplyForward(c, u, f, pos).value.0, l.newDepositCount, f)
  {
    BackwardGood(c, t, l, num, pos, floor);
    assert u.(blocks := u.blocks) == u;
    ForwardAfterBackwardIsAccepted(c, t, l, f, u.blocks, pos, l.blockPos + 1, u);
    var r := ApplyForward(c, u, f, pos).value;
    BackwardForwardRestores(c, t, l, f, u.blocks, pos, u, r.0, r.1);
  }

  /** Recovery over two blocks: a BackwardLET in one, the ForwardLET that answers it in a later one. */
  lemma RecoveryInLaterBlock(c: Chain, t: Tables, l: BackwardLET, f: ForwardLET, u: Tables)
    requires Good(c, t) && t.archive == map[] && (forall n :: n in t.blocks ==> n < l.blockNum) && l.blockNum < f.blockNum
    requires ApplyBackward(c, t.(blocks := t.blocks + {l.blockNum}), l) == Ok(u) && Answers(c, t, l, u, f)
    ensures var blocks := [Block(l.blockNum, [BackwardEvent(l)]), Block(f.blockNum, [ForwardEvent(f)])];
            ApplyBlocks(c, t, blocks).Ok? && Restored(c, t, ApplyBlocks(c, t, blocks).value, l.newDepositCount, f)
  {
    var t0 := t.(blocks := t.blocks + {l.blockNum});
    var first, second := Block(l.blockNum, [BackwardEvent(l)]), Block(f.blockNum, [ForwardEvent(f)]);
    var v := ForwardOpensNext(c, t, l, f, u);
    OneEventBlock(c, t, first);
    OneEventBlock(c, u, second);
    TwoBlocks(c, t, first, second, u, v);
  }

  /** The later block alone. */
  lemma ForwardOpensNext(c: Chain, t: Tables, l: BackwardLET, f: ForwardLET, u: Tables) returns (v: Tables)
    requires Good(c, t) && t.archive == map[] && (forall n :: n in t.blocks ==> n < l.blockNum) && l.blockNum < f.blockNum
    requires ApplyBackward(c, t.(blocks := t.blocks + {l.blockNum}), l) == Ok(u) && Answers(c, t, l, u, f)
    ensures var r := ApplyForward(c, u.(blocks := u.blocks + {f.blockNum}), f, None); r.Ok? && r.value.0 == v
    ensures Restored(c, t, v, l.newDepositCount, f)
  {
    var t0 := t.(blocks := t.blocks + {l.blockNum});
    BlockIsOpen(c, t, l.blockNum);
    BackwardGood(c, t0, l, l.blockNum, None, 0);
    BackwardKeepsBlocks(c, t0, l);
    BlockIsOpen(c, u, f.blockNum);
    var bs := u.blocks + {f.blockNum};
    ForwardAfterBackwardIsAccepted(c, t0, l, f, bs, None, 0, u);
    var r := ApplyForward(c, u.(blocks := bs), f, None).value;
    BackwardForwardRestores(c, t0, l, f, bs, None, u, r.0, r.1);
    v := r.0;
  }

  lemma TwoBlocks(c: Chain, t: Tables, first: Block, second: Block, u: Tables, v: Tables)
    requires ApplyBlock(c, t, first) == Ok(u) && ApplyBlock(c, u, second) == Ok(v)
    ensures ApplyBlocks(c, t, [first, second]) == Ok(v)
  {
    assert [first, second][1..] == [second] && [second][1..] == [];
    assert ApplyBlocks(c, t, [first, second]) == ApplyBlocks(c, u, [second]);
  }

  lemma BackwardKeepsBlocks(c: Chain, t: Tables, l: BackwardLET)
    requires ApplyBackward(c, t, l).Ok?
    ensures ApplyBackward(c, t, l).value.blocks == t.blocks
  {
  }

  /** A new block number leaves good tables open for its first event. */
  lemma BlockIsOpen(c: Chain, t: Tables, num: nat)
    requires Good(c, t) && forall n :: n in t.blocks ==> n < num
    ensures Good(c, t.(blocks := t.blocks + {num})) && Open(t.(blocks := t.blocks + {num}), num, None, 0)
  {
    var t0 := t.(blocks := t.blocks + {num});
    forall i | 0 <= i < |t0.tree| ensures t0.tree[i].blockNum != num {
      assert t.tree[i].blockNum == t.bridge[i].blockNum;
    }
  }

  lemma OneEventBlock(c: Chain, t: Tables, b: Block)
    requires |b.events| == 1
    ensures var r := ApplyEvent(c, t.(blocks := t.blocks + {b.num}), b.num, b.events[0], None);
            ApplyBlock(c, t, b) == if r.Ok? then Ok(r.value.0) else Fail(r.why)
  {
    var t0 := t.(blocks := t.blocks + {b.num});
    var r := ApplyEvent(c, t0, b.num, b.events[0], None);
    assert b.events[1..] == [];
    if r.Ok? { assert ApplyEvents(c, t0, b.num, b.events, None) == ApplyEvents(c, r.value.0, b.num, [], r.value.1); }
  }

  lemma RootsMatch(c: Chain, t: Tables, l: BackwardLET, u: Tables)
    requires ApplyBackward(c, t, l) == Ok(u)
    ensures MatchesLER(c, t, l.previousRoot) && MatchesLER(c, u, l.newRoot)
  {
  }

  lemma ForwardAccepted(c: Chain, u: Tables, f: ForwardLET, pos: Option<nat>, index: uint32, t1: Tables)
    requires MatchesLER(c, u, f.previousRoot) && f.newLeaves.Some?
    requires index == if f.previousRoot != c.initialLER then f.previousDepositCount else 0
    requires AppendLeaves(c, u, f, f.newLeaves.value, index, ForwardStart(f, pos)) == Ok(t1)
    requires MatchesLER(c, t1, f.newRoot) && InsertForward(t1, f).Ok?
    ensures ApplyForward(c, u, f, pos).Ok?
  {
  }
}
