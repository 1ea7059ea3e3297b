/**
 Reorg against the promise "as if the last block processed was first - 1".

 Restoring walks the BackwardLETs of the dropped blocks in table order, over
 the closed range [new, previous] of each, and then clears that range of the
 archive. Exactly when that rebuilds the earlier tables is ReorgUndoes.
 */
module BridgeReorg {
  import opened Prelude
  import opened BridgeTables
  import opened BridgeAgreement
  import opened BridgeOrder

  // ----- the condition -----

  /** How many of n rows are left after the BackwardLETs have cut them back. */
  function Survivors(n: nat, lets: seq<BackwardLET>): int {
    if lets == [] then n else Min(Survivors(n, lets[..|lets| - 1]), lets[|lets| - 1].newDepositCount)
  }

  /** How many of the BackwardLETs cut into what was left of those n rows. */
  function Cuts(n: nat, lets: seq<BackwardLET>): nat {
    if lets == [] then 0
    else
      var before := lets[..|lets| - 1];
      Cuts(n, before) + if lets[|lets| - 1].newDepositCount < Survivors(n, before) then 1 else 0
  }

  predicate InRange(l: BackwardLET, d: int) {
    l.newDepositCount <= d <= l.previousDepositCount
  }

  predicate Covered(lets: seq<BackwardLET>, d: int) {
    exists j :: 0 <= j < |lets| && InRange(lets[j], d)
  }

  ghost predicate Untouched(archive: map<nat, Bridge>, lets: seq<BackwardLET>) {
    forall d :: d in archive ==> !Covered(lets, d)
  }

  /** The BackwardLETs of the dropped blocks cut the earlier rows at most once and span nothing archived before. */
  ghost predicate Undoable(t0: Tables, lets: seq<BackwardLET>) {
    lets == [] || (Cuts(|t0.bridge|, lets) <= 1 && Untouched(t0.archive, lets))
  }

  /** Equal tables, except that a restored row forgets how it got into the bridge table. */
  ghost predicate SameUpToSource(t: Tables, t0: Tables) {
    && t == t0.(bridge := t.bridge)
    && |t.bridge| == |t0.bridge|
    && forall i :: 0 <= i < |t.bridge| ==> t.bridge[i].(source := Live) == t0.bridge[i].(source := Live)
  }

  lemma {:induction false} SurvivorsBounds(n: nat, lets: seq<BackwardLET>)
    requires forall j :: 0 <= j < |lets| ==> lets[j].newDepositCount >= 0
    ensures 0 <= Survivors(n, lets) <= n
    ensures forall j :: 0 <= j < |lets| ==> Survivors(n, lets) <= lets[j].newDepositCount
    ensures Cuts(n, lets) == 0 <==> Survivors(n, lets) == n
  {
    if lets != [] {
      SurvivorsBounds(n, lets[..|lets| - 1]);
    }
  }

  /** The first BackwardLET that cuts the n rows, and whether it is the only one. */
  lemma {:induction false} FirstCut(n: nat, lets: seq<BackwardLET>) returns (e: nat)
    requires Cuts(n, lets) >= 1
    requires forall j :: 0 <= j < |lets| ==> lets[j].newDepositCount >= 0
    ensures e < |lets| && lets[e].newDepositCount < n && Survivors(n, lets[..e]) == n
    ensures forall j :: 0 <= j < e ==> lets[j].newDepositCount >= n
    ensures Cuts(n, lets) == 1 ==> Survivors(n, lets) == lets[e].newDepositCount
    ensures Cuts(n, lets) > 1 ==> Survivors(n, lets) < lets[e].newDepositCount
  {
    var before := lets[..|lets| - 1];
    SurvivorsBounds(n, before);
    if Cuts(n, before) >= 1 {
      e := FirstCut(n, before);
      assert before[..e] == lets[..e];
    } else {
      e := |lets| - 1;
    }
  }

  // ----- the BackwardLETs of the dropped blocks -----

  /** They are faithful, of the dropped blocks, and each moves back from at least what it leaves of the n rows. */
  ghost predicate LetsFit(n: nat, lets: seq<BackwardLET>, first: nat) {
    forall j :: 0 <= j < |lets| ==>
      && lets[j].blockNum >= first
      && 0 <= lets[j].newDepositCount <= lets[j].previousDepositCount <= TWO_32
      && Survivors(n, lets[..j]) <= lets[j].previousDepositCount
  }

  lemma LetsFitExtends(n: nat, lets: seq<BackwardLET>, l: BackwardLET, first: nat)
    requires LetsFit(n, lets, first)
    requires l.blockNum >= first
    requires 0 <= l.newDepositCount <= l.previousDepositCount <= TWO_32
    requires Survivors(n, lets) <= l.previousDepositCount
    ensures LetsFit(n, lets + [l], first)
    ensures Survivors(n, lets + [l]) == Min(Survivors(n, lets), l.newDepositCount)
  {
    var lets' := lets + [l];
    assert lets'[..|lets|] == lets;
    forall j | 0 <= j < |lets'| ensures Survivors(n, lets'[..j]) <= lets'[j].previousDepositCount {
      assert lets'[..j] == lets[..j];
      if j == |lets| { assert lets[..j] == lets; }
    }
  }

  lemma CoveredExtends(lets: seq<BackwardLET>, l: BackwardLET, d: int)
    ensures Covered(lets + [l], d) <==> Covered(lets, d) || InRange(l, d)
  {
    if Covered(lets, d) {
      var j :| 0 <= j < |lets| && InRange(lets[j], d);
      assert InRange((lets + [l])[j], d);
    }
    if InRange(l, d) {
      assert InRange((lets + [l])[|lets|], d);
    }
  }

  lemma CoveredSplits(lets: seq<BackwardLET>, d: int)
    requires lets != []
    ensures Covered(lets, d) <==> InRange(lets[0], d) || Covered(lets[1..], d)
  {
    if Covered(lets[1..], d) {
      var j :| 0 <= j < |lets[1..]| && InRange(lets[1..][j], d);
      assert InRange(lets[j + 1], d);
    }
    if Covered(lets, d) && !InRange(lets[0], d) {
      var j :| 0 <= j < |lets| && InRange(lets[j], d);
      assert InRange(lets[1..][j - 1], d);
    }
  }

  /** A row that was cut lies in the range of the BackwardLET that cut it. */
  lemma {:induction false} CutIsCovered(n: nat, lets: seq<BackwardLET>, first: nat, d: int)
    requires LetsFit(n, lets, first) && Survivors(n, lets) <= d < n
    ensures Covered(lets, d)
  {
    var before, l := lets[..|lets| - 1], lets[|lets| - 1];
    assert lets == before + [l];
    if Survivors(n, before) <= d {
      forall j | 0 <= j < |before| ensures lets[..j] == before[..j] {}
      CutIsCovered(n, before, first, d);
    }
    CoveredExtends(before, l, d);
  }

  // ----- what the blocks from `first` on have done to t0 -----

  /** The first m rows are those of t0, and everything after them is of the later blocks. */
  ghost predicate RowsSince(t0: Tables, first: nat, t: Tables, m: int) {
    && |t.bridge| == |t.tree| && |t0.bridge| == |t0.tree|
    && 0 <= m <= |t0.bridge| && m <= |t.bridge|
    && t.bridge[..m] == t0.bridge[..m]
    && t.tree[..m] == t0.tree[..m]
    && forall i :: m <= i < |t.bridge| ==> t.bridge[i].blockNum >= first
  }

  /** The archive is the earlier one, the cut rows of t0, and rows of the later blocks. */
  ghost predicate ArchiveSince(t0: Tables, first: nat, archive: map<nat, Bridge>, m: int, lets: seq<BackwardLET>) {
    && (forall d :: d in t0.archive ==> d in archive && archive[d] == t0.archive[d])
    && (forall d :: 0 <= m <= d < |t0.bridge| ==>
          d in archive && (d !in t0.archive ==> archive[d] == Archived(t0.bridge[d])))
    && (forall d :: d in archive && d !in t0.archive && !(m <= d < |t0.bridge|) ==> archive[d].blockNum >= first)
    && (forall d :: d in archive && d !in t0.archive ==> Covered(lets, d))
  }

  /** The other tables have only grown, by rows of the later blocks. */
  ghost predicate Grown(t0: Tables, first: nat, t: Tables, lets: seq<BackwardLET>) {
    && (forall n :: n in t0.blocks ==> n < first)
    && (set n | n in t.blocks && n < first) == t0.blocks
    && t.backward == t0.backward + lets
    && t0.forward <= t.forward
    && (forall i :: |t0.forward| <= i < |t.forward| ==> t.forward[i].blockNum >= first)
  }

  ghost predicate Since(c: Chain, t0: Tables, first: nat, t: Tables, lets: seq<BackwardLET>) {
    && Good(c, t0) && Good(c, t)
    && Grown(t0, first, t, lets)
    && LetsFit(|t0.bridge|, lets, first)
    && RowsSince(t0, first, t, Survivors(|t0.bridge|, lets))
    && ArchiveSince(t0, first, t.archive, Survivors(|t0.bridge|, lets), lets)
  }

  lemma SinceStart(c: Chain, t0: Tables, first: nat)
    requires Good(c, t0) && forall n :: n in t0.blocks ==> n < first
    ensures Since(c, t0, first, t0, [])
  {
    assert t0.backward + [] == t0.backward;
  }

  // ----- every event keeps it -----

  lemma SinceAddBridge(
    c: Chain, t0: Tables, first: nat, t: Tables, lets: seq<BackwardLET>, num: nat, b: Bridge, floor: nat)
    requires Since(c, t0, first, t, lets) && Open(t, num, Some(b.blockPos), floor)
    requires first <= num == b.blockNum
    requires AddBridge(c, t, num, b).Ok?
    ensures Since(c, t0, first, AddBridge(c, t, num, b).value, lets)
  {
    AddBridgeGood(c, t, num, b, floor);
  }

  lemma {:induction false} SinceAppendLeaves(
    c: Chain, t0: Tables, first: nat, t: Tables, lets: seq<BackwardLET>,
    e: ForwardLET, leaves: seq<LeafData>, index: uint32, pos: nat, floor: nat)
    requires Since(c, t0, first, t, lets) && Open(t, e.blockNum, Some(pos), floor)
    requires first <= e.blockNum
    requires AppendLeaves(c, t, e, leaves, index, pos).Ok?
    ensures Since(c, t0, first, AppendLeaves(c, t, e, leaves, index, pos).value, lets)
    decreases |leaves|
  {
    if leaves != [] {
      var b := ForwardBridge(t.archive, e, leaves[0], index, pos);
      SinceAddBridge(c, t0, first, t, lets, e.blockNum, b, floor);
      AddBridgeGood(c, t, e.blockNum, b, floor);
      SinceAppendLeaves(
        c, t0, first, AddBridge(c, t, e.blockNum, b).value, lets, e, leaves[1..], NextUint32(index), pos + 1, floor);
    }
  }

  lemma RowsCut(t0: Tables, first: nat, t: Tables, u: Tables, m: int, n: nat)
    requires RowsSince(t0, first, t, m)
    requires n <= |t.bridge| && u.bridge == t.bridge[..n] && u.tree == t.tree[..n]
    ensures RowsSince(t0, first, u, Min(m, n))
  {
    var m' := Min(m, n);
    assert u.bridge[..m'] == t.bridge[..m][..m'] == t0.bridge[..m'];
    assert u.tree[..m'] == t.tree[..m][..m'] == t0.tree[..m'];
  }

  /** A row of t0 that is still live has not been archived since. */
  lemma LiveIsNotArchived(t0: Tables, first: nat, archive: map<nat, Bridge>, lets: seq<BackwardLET>, d: nat)
    requires LetsFit(|t0.bridge|, lets, first) && ArchiveSince(t0, first, archive, Survivors(|t0.bridge|, lets), lets)
    requires d < Survivors(|t0.bridge|, lets) && d !in t0.archive
    ensures d !in archive
  {
    SurvivorsBounds(|t0.bridge|, lets);
  }

  /** One truncation to n, of rows of which the first m are those of t0. */
  lemma ArchiveCut(
    t0: Tables, first: nat, t: Tables, lets: seq<BackwardLET>, m: int, l: BackwardLET, archive: map<nat, Bridge>)
    requires RowsSince(t0, first, t, m) && ArchiveSince(t0, first, t.archive, m, lets)
    requires 0 <= l.newDepositCount <= l.previousDepositCount == |t.bridge|
    requires forall d :: 0 <= d < m && d !in t0.archive ==> d !in t.archive
    requires forall d :: d in t.archive ==> d in archive && archive[d] == t.archive[d]
    requires forall d :: l.newDepositCount <= d < |t.bridge| ==>
               d in archive && (d !in t.archive ==> archive[d] == Archived(t.bridge[d]))
    requires forall d :: d in archive && d !in t.archive ==> l.newDepositCount <= d < |t.bridge|
    ensures ArchiveSince(t0, first, archive, Min(m, l.newDepositCount), lets + [l])
  {
    var m' := Min(m, l.newDepositCount);
    forall d | d in archive && d !in t0.archive ensures Covered(lets + [l], d) {
      CoveredExtends(lets, l, d);
    }
    forall d | m' <= d < |t0.bridge|
      ensures d in archive && (d !in t0.archive ==> archive[d] == Archived(t0.bridge[d]))
    {
      if d < m {
        assert t.bridge[d] == t.bridge[..m][d] == t0.bridge[..m][d];
      }
    }
    forall d | d in archive && d !in t0.archive && !(m' <= d < |t0.bridge|) ensures archive[d].blockNum >= first {
      if d !in t.archive {
        assert archive[d] == Archived(t.bridge[d]);
      }
    }
  }

  lemma SinceTruncate(c: Chain, t0: Tables, first: nat, t: Tables, lets: seq<BackwardLET>, l: BackwardLET)
    requires Since(c, t0, first, t, lets)
    requires first <= l.blockNum && 0 <= l.newDepositCount <= l.previousDepositCount == |t.tree|
    ensures var u := TruncateTo(t, l.newDepositCount);
            var m := Survivors(|t0.bridge|, lets + [l]);
            && RowsSince(t0, first, u, m)
            && ArchiveSince(t0, first, u.archive, m, lets + [l])
            && LetsFit(|t0.bridge|, lets + [l], first)
  {
    var n := l.newDepositCount;
    var m := Survivors(|t0.bridge|, lets);
    TruncateEffect(c, t, n);
    LetsFitExtends(|t0.bridge|, lets, l, first);
    RowsCut(t0, first, t, TruncateTo(t, n), m, n);
    forall d | 0 <= d < m && d !in t0.archive ensures d !in t.archive {
      LiveIsNotArchived(t0, first, t.archive, lets, d);
    }
    ArchiveCut(t0, first, t, lets, m, l, TruncateTo(t, n).archive);
  }

  lemma GrownByBackward(t0: Tables, first: nat, t: Tables, v: Tables, lets: seq<BackwardLET>, l: BackwardLET)
    requires Grown(t0, first, t, lets)
    requires v.blocks == t.blocks && v.forward == t.forward && v.backward == t.backward + [l]
    ensures Grown(t0, first, v, lets + [l])
  {
    ConcatIsAssociative(t0.backward, lets, [l]);
  }

  lemma SinceBackward(
    c: Chain, t0: Tables, first: nat, t: Tables, lets: seq<BackwardLET>, l: BackwardLET, num: nat, pos: Option<nat>, floor: nat)
    requires Since(c, t0, first, t, lets) && Open(t, num, pos, floor)
    requires first <= num == l.blockNum && Faithful(t, BackwardEvent(l)) && floor <= l.blockPos
    requires ApplyBackward(c, t, l).Ok?
    ensures Since(c, t0, first, ApplyBackward(c, t, l).value, lets + [l])
  {
    var v := ApplyBackward(c, t, l).value;
    assert Good(c, v) by { BackwardGood(c, t, l, num, pos, floor); }
    assert Grown(t0, first, v, lets + [l]) by { GrownByBackward(t0, first, t, v, lets, l); }
    SinceTruncate(c, t0, first, t, lets, l);
  }

  function OwnLets(e: Event): seq<BackwardLET> {
    if e.BackwardEvent? then [e.backward] else []
  }

  /** The BackwardLETs among some events. */
  function LetsOf(events: seq<Event>): seq<BackwardLET>
    decreases |events|
  {
    if events == [] then []
    else OwnLets(events[0]) + LetsOf(events[1..])
  }

  function LetsIn(blocks: seq<Block>): seq<BackwardLET>
    decreases |blocks|
  {
    if blocks == [] then [] else LetsOf(blocks[0].events) + LetsIn(blocks[1..])
  }

  lemma SinceForward(
    c: Chain, t0: Tables, first: nat, t: Tables, lets: seq<BackwardLET>, f: ForwardLET, num: nat, pos: Option<nat>, floor: nat)
    requires Since(c, t0, first, t, lets) && Open(t, num, pos, floor)
    requires first <= num == f.blockNum && floor <= f.blockPos
    requires ApplyForward(c, t, f, pos).Ok?
    ensures Since(c, t0, first, ApplyForward(c, t, f, pos).value.0, lets)
  {
    var index := if f.previousRoot != c.initialLER then f.previousDepositCount else 0;
    SinceAppendLeaves(c, t0, first, t, lets, f, f.newLeaves.value, index, ForwardStart(f, pos), floor);
    ForwardGood(c, t, f, num, pos, floor);
  }

  lemma SinceEvent(
    c: Chain, t0: Tables, first: nat, t: Tables, lets: seq<BackwardLET>, num: nat, e: Event, pos: Option<nat>, floor: nat)
    requires Since(c, t0, first, t, lets) && Open(t, num, pos, floor)
    requires first <= num == EventBlock(e) && floor <= EventPos(e) && Faithful(t, e)
    requires ApplyEvent(c, t, num, e, pos).Ok?
    ensures Since(c, t0, first, ApplyEvent(c, t, num, e, pos).value.0, lets + OwnLets(e))
  {
    assert lets + [] == lets;
    match e
    case BridgeEvent(b) =>
      SinceAddBridge(c, t0, first, t, lets, num, Placed(b, pos), floor);
    case BackwardEvent(l) =>
      SinceBackward(c, t0, first, t, lets, l, num, pos, floor);
    case ForwardEvent(f) =>
      SinceForward(c, t0, first, t, lets, f, num, pos, floor);
  }

  /** The same step as the event lemmas above, with its outcome named. */
  lemma SinceStep(
    c: Chain, t0: Tables, first: nat, t: Tables, lets: seq<BackwardLET>, num: nat, e: Event, pos: Option<nat>, floor: nat,
    u: Tables, pos': Option<nat>)
    requires Since(c, t0, first, t, lets) && Open(t, num, pos, floor)
    requires first <= num == EventBlock(e) && floor <= EventPos(e) && Faithful(t, e)
    requires ApplyEvent(c, t, num, e, pos) == Ok((u, pos'))
    ensures Since(c, t0, first, u, lets + OwnLets(e))
    ensures Open(u, num, pos', EventPos(e) + 1)
  {
    SinceEvent(c, t0, first, t, lets, num, e, pos, floor);
    EventGood(c, t, num, e, pos, floor);
  }

  lemma {:induction false} SinceEvents(
    c: Chain, t0: Tables, first: nat, t: Tables, lets: seq<BackwardLET>,
    num: nat, events: seq<Event>, pos: Option<nat>, floor: nat, all: seq<BackwardLET>, u: Tables)
    requires Since(c, t0, first, t, lets) && Open(t, num, pos, floor) && first <= num
    requires WellFormedEvents(c, t, num, events, pos, floor)
    requires ApplyEvents(c, t, num, events, pos) == Ok(u) && all == lets + LetsOf(events)
    ensures Since(c, t0, first, u, all)
    decreases |events|
  {
    if events == [] {
      assert all == lets;
    } else {
      var e := events[0];
      var (t1, pos') := ApplyEvent(c, t, num, e, pos).value;
      SinceStep(c, t0, first, t, lets, num, e, pos, floor, t1, pos');
      ConcatIsAssociative(lets, OwnLets(e), LetsOf(events[1..]));
      SinceEvents(c, t0, first, t1, lets + OwnLets(e), num, events[1..], pos', EventPos(e) + 1, all, u);
    }
  }

  lemma SinceBlock(c: Chain, t0: Tables, first: nat, t: Tables, lets: seq<BackwardLET>, b: Block)
    requires Since(c, t0, first, t, lets) && first <= b.num
    requires WellFormedBlock(c, t, b) && ApplyBlock(c, t, b).Ok?
    ensures Since(c, t0, first, ApplyBlock(c, t, b).value, lets + LetsOf(b.events))
  {
    var t1 := t.(blocks := t.blocks + {b.num});
    assert Since(c, t0, first, t1, lets);
    forall i | 0 <= i < |t1.tree| ensures t1.tree[i].blockNum != b.num {
      assert t.bridge[i].blockNum in t.blocks;
    }
    SinceEvents(c, t0, first, t1, lets, b.num, b.events, None, 0, lets + LetsOf(b.events), ApplyBlock(c, t, b).value);
  }

  lemma {:induction false} SinceRun(
    c: Chain, t0: Tables, first: nat, t: Tables, lets: seq<BackwardLET>, blocks: seq<Block>, all: seq<BackwardLET>)
    requires Since(c, t0, first, t, lets) && all == lets + LetsIn(blocks)
    requires WellFormedRun(c, t, blocks) && ApplyBlocks(c, t, blocks).Ok?
    requires forall i :: 0 <= i < |blocks| ==> blocks[i].num >= first
    ensures Since(c, t0, first, ApplyBlocks(c, t, blocks).value, all)
    decreases |blocks|
  {
    if blocks == [] {
      assert all == lets;
    } else {
      var b := blocks[0];
      SinceBlock(c, t0, first, t, lets, b);
      ConcatIsAssociative(lets, LetsOf(b.events), LetsIn(blocks[1..]));
      SinceRun(c, t0, first, ApplyBlock(c, t, b).value, lets + LetsOf(b.events), blocks[1..], all);
    }
  }

  // ----- dropping the blocks -----

  /** What is left of t0 when only its first m rows and leaves survive and the archive is `archive`. */
  ghost function Remains(t0: Tables, m: int, archive: map<nat, Bridge>): Tables
    requires 0 <= m <= |t0.bridge| == |t0.tree|
  {
    t0.(bridge := t0.bridge[..m], tree := t0.tree[..m], archive := archive)
  }

  lemma DropRows(t0: Tables, first: nat, t: Tables, m: int)
    requires RowsSince(t0, first, t, m)
    requires forall i :: 0 <= i < |t0.bridge| ==> t0.bridge[i].blockNum < first && t0.tree[i].blockNum < first
    requires forall i :: 0 <= i < |t.bridge| ==> t.tree[i].blockNum == t.bridge[i].blockNum
    ensures Filter(t.bridge, (b: Bridge) => b.blockNum < first) == t0.bridge[..m]
    ensures Filter(t.tree, (l: Leaf) => l.blockNum < first) == t0.tree[..m]
  {
    forall i | 0 <= i < m ensures t.bridge[i].blockNum < first && t.tree[i].blockNum < first {
      assert t.bridge[i] == t.bridge[..m][i] == t0.bridge[..m][i];
    }
    FilterKeepsPrefix(t.bridge, (b: Bridge) => b.blockNum < first, m);
    FilterKeepsPrefix(t.tree, (l: Leaf) => l.blockNum < first, m);
  }

  lemma DropEvents(t0: Tables, first: nat, t: Tables, lets: seq<BackwardLET>)
    requires Grown(t0, first, t, lets)
    requires forall i :: 0 <= i < |t0.backward| ==> t0.backward[i].blockNum < first
    requires forall i :: 0 <= i < |t0.forward| ==> t0.forward[i].blockNum < first
    requires forall i :: 0 <= i < |lets| ==> lets[i].blockNum >= first
    ensures BackwardFrom(t.backward, first) == lets
    ensures Filter(t.backward, (l: BackwardLET) => l.blockNum < first) == t0.backward
    ensures Filter(t.forward, (f: ForwardLET) => f.blockNum < first) == t0.forward
  {
    var k := |t0.backward|;
    FilterKeepsPrefix(t.backward, (l: BackwardLET) => l.blockNum < first, k);
    FilterKeepsSuffix(t.backward, (l: BackwardLET) => l.blockNum >= first, k);
    FilterKeepsPrefix(t.forward, (f: ForwardLET) => f.blockNum < first, |t0.forward|);
  }

  lemma DropEffect(c: Chain, t0: Tables, first: nat, t: Tables, lets: seq<BackwardLET>)
    requires Since(c, t0, first, t, lets)
    ensures BackwardFrom(t.backward, first) == lets
    ensures DropBlocks(t, first) == Remains(t0, Survivors(|t0.bridge|, lets), t.archive)
  {
    DropRows(t0, first, t, Survivors(|t0.bridge|, lets));
    DropEvents(t0, first, t, lets);
  }

  // ----- restoring rows -----

  ghost predicate Keyed(archive: map<nat, Bridge>) {
    forall d :: d in archive ==> archive[d].depositCount == d
  }

  lemma {:induction false} ArchiveRowsAre(archive: map<nat, Bridge>, lo: int, hi: int)
    requires Keyed(archive)
    ensures forall b :: b in ArchiveRows(archive, lo, hi) ==>
              lo <= b.depositCount < hi && b.depositCount in archive && archive[b.depositCount] == b
    decreases hi - lo
  {
    if lo < hi {
      ArchiveRowsAre(archive, lo + 1, hi);
    }
  }

  lemma {:induction false} RestoreNothing(c: Chain, t: Tables, rows: seq<Bridge>, removed: set<nat>)
    requires forall b :: b in rows ==> b.depositCount in removed
    ensures RestoreRows(c, t, rows, removed) == Ok(t)
    decreases |rows|
  {
    if rows != [] {
      assert rows[0] in rows;
      RestoreNothing(c, t, rows[1..], removed);
    }
  }

  lemma {:induction false} RestoreRowsKeepArchive(c: Chain, t: Tables, rows: seq<Bridge>, removed: set<nat>)
    requires RestoreRows(c, t, rows, removed).Ok?
    ensures RestoreRows(c, t, rows, removed).value.archive == t.archive
    decreases |rows|
  {
    if rows != [] {
      if rows[0].depositCount in removed {
        RestoreRowsKeepArchive(c, t, rows[1..], removed);
      } else {
        var b := rows[0].(source := Live);
        var t1 := InsertBridge(t, b).value;
        var t2 := PutLeaf(t1, b.depositCount, Leaf(c.leafHash(b.leaf), b.blockNum, b.blockPos)).value;
        RestoreRowsKeepArchive(c, t2, rows[1..], removed);
      }
    }
  }

  /** The first n rows of t0 are back, in bridge and in tree. */
  ghost predicate RebuiltTo(t0: Tables, t: Tables, n: nat) {
    && n <= |t0.bridge| == |t0.tree|
    && t == t0.(bridge := t.bridge, tree := t0.tree[..n], archive := t.archive)
    && |t.bridge| == n
    && forall i :: 0 <= i < n ==> t.bridge[i].(source := Live) == t0.bridge[i].(source := Live)
  }

  lemma FreshKey(c: Chain, t0: Tables, t: Tables, k: nat, b: Bridge)
    requires Good(c, t0) && RebuiltTo(t0, t, k) && k < |t0.bridge| && b == t0.bridge[k].(source := Live)
    ensures InsertBridge(t, b).Ok?
  {
    forall i | 0 <= i < |t.bridge| ensures !SameKey(t.bridge[i], b) {
      assert Precedes(t0.tree[i], t0.tree[k]);
      assert t.bridge[i].(source := Live) == t0.bridge[i].(source := Live);
    }
  }

  lemma {:induction false} RestoreRebuilds(c: Chain, t0: Tables, t: Tables, k: nat, hi: nat, removed: set<nat>)
    requires Good(c, t0) && RebuiltTo(t0, t, k) && Keyed(t.archive) && |t0.bridge| <= hi
    requires forall d :: k <= d < |t0.bridge| ==> d in t.archive && t.archive[d] == Archived(t0.bridge[d]) && d !in removed
    requires forall d :: |t0.bridge| <= d < hi && d in t.archive ==> d in removed
    ensures var r := RestoreRows(c, t, ArchiveRows(t.archive, k, hi), removed);
            r.Ok? && RebuiltTo(t0, r.value, |t0.bridge|) && r.value.archive == t.archive
    decreases |t0.bridge| - k
  {
    var rows := ArchiveRows(t.archive, k, hi);
    if k == |t0.bridge| {
      ArchiveRowsAre(t.archive, k, hi);
      RestoreNothing(c, t, rows, removed);
    } else {
      assert rows[0] == t.archive[k] && rows[1..] == ArchiveRows(t.archive, k + 1, hi);
      var b := rows[0].(source := Live);
      assert b == t0.bridge[k].(source := Live);
      FreshKey(c, t0, t, k, b);
      var t2 := t.(bridge := t.bridge + [b], tree := t.tree + [t0.tree[k]]);
      assert t0.tree[..k] + [t0.tree[k]] == t0.tree[..k + 1];
      RestoreRebuilds(c, t0, t2, k + 1, hi, removed);
    }
  }

  // ----- restoring over several BackwardLETs -----

  ghost function WithoutCovered(archive: map<nat, Bridge>, lets: seq<BackwardLET>): map<nat, Bridge> {
    map d | d in archive && !Covered(lets, d) :: archive[d]
  }

  lemma WithoutCoveredCons(archive: map<nat, Bridge>, lets: seq<BackwardLET>)
    requires lets != []
    ensures WithoutCovered(WithoutRange(archive, lets[0].newDepositCount, lets[0].previousDepositCount), lets[1..])
            == WithoutCovered(archive, lets)
  {
    forall d ensures Covered(lets, d) <==> InRange(lets[0], d) || Covered(lets[1..], d) { CoveredSplits(lets, d); }
  }

  /** Whatever is restored, the spanned ranges of the archive end up empty and nothing is added to it. */
  lemma {:induction false} RestoreClears(c: Chain, t: Tables, lets: seq<BackwardLET>, removed: set<nat>)
    requires Restore(c, t, lets, removed).Ok?
    ensures Restore(c, t, lets, removed).value.archive == WithoutCovered(t.archive, lets)
    decreases |lets|
  {
    if lets == [] {
      assert WithoutCovered(t.archive, lets) == t.archive;
    } else {
      var l := lets[0];
      var rows := ArchiveRows(t.archive, l.newDepositCount, l.previousDepositCount + 1);
      RestoreRowsKeepArchive(c, t, rows, removed);
      var t1 := RestoreRows(c, t, rows, removed).value;
      var t2 := t1.(archive := WithoutRange(t1.archive, l.newDepositCount, l.previousDepositCount));
      RestoreClears(c, t2, lets[1..], removed);
      WithoutCoveredCons(t.archive, lets);
    }
  }

  ghost predicate LetsNormal(lets: seq<BackwardLET>) {
    forall j :: 0 <= j < |lets| ==> FitsUint64(lets[j].newDepositCount) && FitsUint64(lets[j].previousDepositCount)
  }

  /** BackwardLETs that span only rows of dropped blocks restore nothing and clear their ranges. */
  lemma {:induction false} RestoreSkips(c: Chain, t: Tables, lets: seq<BackwardLET>, removed: set<nat>)
    requires LetsNormal(lets) && Keyed(t.archive)
    requires forall d :: d in t.archive && Covered(lets, d) ==> d in removed
    ensures Restore(c, t, lets, removed) == Ok(t.(archive := WithoutCovered(t.archive, lets)))
    decreases |lets|
  {
    if lets == [] {
      assert WithoutCovered(t.archive, lets) == t.archive;
    } else {
      var l := lets[0];
      forall d ensures Covered(lets, d) <==> InRange(l, d) || Covered(lets[1..], d) { CoveredSplits(lets, d); }
      ArchiveRowsAre(t.archive, l.newDepositCount, l.previousDepositCount + 1);
      RestoreNothing(c, t, ArchiveRows(t.archive, l.newDepositCount, l.previousDepositCount + 1), removed);
      RestoreSkips(c, t.(archive := WithoutRange(t.archive, l.newDepositCount, l.previousDepositCount)), lets[1..], removed);
      WithoutCoveredCons(t.archive, lets);
    }
  }

  lemma {:induction false} RestoreSplits(c: Chain, t: Tables, a: seq<BackwardLET>, b: seq<BackwardLET>, removed: set<nat>)
    ensures Restore(c, t, a + b, removed) ==
            match Restore(c, t, a, removed) { case Fail(why) => Fail(why) case Ok(t1) => Restore(c, t1, b, removed) }
    decreases |a|
  {
    if a == [] {
      assert a + b == b;
    } else {
      var l := a[0];
      assert (a + b)[0] == l && (a + b)[1..] == a[1..] + b;
      if FitsUint64(l.previousDepositCount) && FitsUint64(l.newDepositCount) {
        var r := RestoreRows(c, t, ArchiveRows(t.archive, l.newDepositCount, l.previousDepositCount + 1), removed);
        if r.Ok? {
          RestoreSplits(c, r.value.(archive := WithoutRange(r.value.archive, l.newDepositCount, l.previousDepositCount)),
                        a[1..], b, removed);
        }
      }
    }
  }

  /** A first row that is not the next leaf makes the whole restore fail. */
  lemma RestoreFailsAt(c: Chain, t: Tables, lets: seq<BackwardLET>, removed: set<nat>)
    requires lets != [] && 0 <= lets[0].newDepositCount <= lets[0].previousDepositCount
    requires var d := lets[0].newDepositCount;
             d in t.archive && t.archive[d].depositCount == d && d !in removed && |t.tree| != d
    ensures Restore(c, t, lets, removed).Fail?
  {
    var d := lets[0].newDepositCount;
    var rows := ArchiveRows(t.archive, d, lets[0].previousDepositCount + 1);
    assert rows[0] == t.archive[d];
  }

  // ----- restoring t0 -----

  /** What the restore has to work with: in the spanned ranges, the cut rows of t0 and rows it treats as gone. */
  ghost predicate Restorable(t0: Tables, archive: map<nat, Bridge>, lets: seq<BackwardLET>, m: int, removed: set<nat>) {
    && Keyed(archive) && LetsNormal(lets)
    && 0 <= m <= |t0.bridge| == |t0.tree|
    && (forall d :: m <= d < |t0.bridge| ==> d in archive && archive[d] == Archived(t0.bridge[d]) && d !in removed)
    && (forall d :: d in archive && Covered(lets, d) && !(m <= d < |t0.bridge|) ==> d in removed)
  }

  lemma SinceIsRestorable(c: Chain, t0: Tables, first: nat, t: Tables, lets: seq<BackwardLET>)
    requires Since(c, t0, first, t, lets) && Untouched(t0.archive, lets)
    ensures Restorable(t0, t.archive, lets, Survivors(|t0.bridge|, lets), ReorgedDepositCounts(t.archive, first))
  {
    var m := Survivors(|t0.bridge|, lets);
    forall d | m <= d < |t0.bridge| ensures d !in t0.archive {
      CutIsCovered(|t0.bridge|, lets, first, d);
    }
  }

  /** BackwardLETs that stay above the rows of t0 restore nothing. */
  lemma RestoreAbove(c: Chain, t0: Tables, archive: map<nat, Bridge>, lets: seq<BackwardLET>, m: int, removed: set<nat>, e: nat)
    requires Restorable(t0, archive, lets, m, removed) && e <= |lets|
    requires forall j :: 0 <= j < e ==> lets[j].newDepositCount >= |t0.bridge|
    ensures Restore(c, Remains(t0, m, archive), lets[..e], removed)
            == Ok(Remains(t0, m, WithoutCovered(archive, lets[..e])))
  {
    forall d | d in archive && Covered(lets[..e], d) ensures d in removed {
      var j :| 0 <= j < |lets[..e]| && InRange(lets[..e][j], d);
      assert InRange(lets[j], d);
    }
    RestoreSkips(c, Remains(t0, m, archive), lets[..e], removed);
  }

  /** The only BackwardLET that cut into t0 brings all of it back; the ones after it add nothing. */
  lemma RestoreFromCut(c: Chain, t0: Tables, archive: map<nat, Bridge>, lets: seq<BackwardLET>, m: int, removed: set<nat>)
    requires Good(c, t0) && lets != [] && Restorable(t0, archive, lets, m, removed)
    requires m == lets[0].newDepositCount && |t0.bridge| <= lets[0].previousDepositCount
    ensures var r := Restore(c, Remains(t0, m, archive), lets, removed);
            r.Ok? && RebuiltTo(t0, r.value, |t0.bridge|)
  {
    var hi := lets[0].previousDepositCount;
    forall d ensures Covered(lets, d) <==> InRange(lets[0], d) || Covered(lets[1..], d) { CoveredSplits(lets, d); }
    var t1 := Remains(t0, m, archive);
    RestoreRebuilds(c, t0, t1, m, hi + 1, removed);
    var t2 := RestoreRows(c, t1, ArchiveRows(archive, m, hi + 1), removed).value;
    var t3 := t2.(archive := WithoutRange(archive, m, hi));
    RestoreSkips(c, t3, lets[1..], removed);
  }

  lemma RestorableAfter(t0: Tables, archive: map<nat, Bridge>, lets: seq<BackwardLET>, m: int, removed: set<nat>, e: nat)
    requires Restorable(t0, archive, lets, m, removed) && e <= |lets|
    requires forall j :: 0 <= j < e ==> lets[j].newDepositCount >= |t0.bridge|
    ensures Restorable(t0, WithoutCovered(archive, lets[..e]), lets[e..], m, removed)
  {
    forall d | Covered(lets[e..], d) ensures Covered(lets, d) {
      var j :| 0 <= j < |lets[e..]| && InRange(lets[e..][j], d);
      assert InRange(lets[e + j], d);
    }
    forall d | m <= d < |t0.bridge| ensures !Covered(lets[..e], d) {
      forall j | 0 <= j < e ensures !InRange(lets[..e][j], d) {
        assert lets[..e][j] == lets[j];
      }
    }
  }

  /** Restoring t0 over all the BackwardLETs: it works after at most one cut, and fails after more. */
  lemma RestoreByCuts(c: Chain, t0: Tables, archive: map<nat, Bridge>, lets: seq<BackwardLET>, first: nat, removed: set<nat>)
    requires Good(c, t0) && LetsFit(|t0.bridge|, lets, first)
    requires Restorable(t0, archive, lets, Survivors(|t0.bridge|, lets), removed)
    ensures var r := Restore(c, Remains(t0, Survivors(|t0.bridge|, lets), archive), lets, removed);
            if Cuts(|t0.bridge|, lets) <= 1 then r.Ok? && RebuiltTo(t0, r.value, |t0.bridge|) else r.Fail?
  {
    var n := |t0.bridge|;
    var m := Survivors(n, lets);
    SurvivorsBounds(n, lets);
    if Cuts(n, lets) == 0 {
      assert lets[..|lets|] == lets;
      RestoreAbove(c, t0, archive, lets, m, removed, |lets|);
    } else {
      var e := FirstCut(n, lets);
      assert lets == lets[..e] + lets[e..];
      RestoreAbove(c, t0, archive, lets, m, removed, e);
      RestoreSplits(c, Remains(t0, m, archive), lets[..e], lets[e..], removed);
      var left := WithoutCovered(archive, lets[..e]);
      RestorableAfter(t0, archive, lets, m, removed, e);
      if Cuts(n, lets) == 1 {
        RestoreFromCut(c, t0, left, lets[e..], m, removed);
      } else {
        RestoreFailsAt(c, Remains(t0, m, left), lets[e..], removed);
      }
    }
  }

  // ----- the theorem -----

  lemma ReorgIsRestore(c: Chain, t0: Tables, first: nat, t: Tables, lets: seq<BackwardLET>)
    requires Since(c, t0, first, t, lets) && lets != []
    ensures ApplyReorg(c, t, first)
            == Restore(c, Remains(t0, Survivors(|t0.bridge|, lets), t.archive), lets, ReorgedDepositCounts(t.archive, first))
  {
    DropEffect(c, t0, first, t, lets);
  }

  lemma ArchiveComesBack(t0: Tables, first: nat, archive: map<nat, Bridge>, m: int, lets: seq<BackwardLET>)
    requires ArchiveSince(t0, first, archive, m, lets)
    ensures WithoutCovered(archive, lets) == t0.archive <==> Untouched(t0.archive, lets)
  {
    if WithoutCovered(archive, lets) == t0.archive {
      forall d | d in t0.archive ensures !Covered(lets, d) {
        assert d in WithoutCovered(archive, lets);
      }
    }
  }

  lemma ReorgWithoutLets(c: Chain, t0: Tables, first: nat, t: Tables)
    requires Since(c, t0, first, t, [])
    ensures ApplyReorg(c, t, first) == Ok(t0)
  {
    DropEffect(c, t0, first, t, []);
    assert t0.bridge[..|t0.bridge|] == t0.bridge && t0.tree[..|t0.bridge|] == t0.tree;
    assert t.archive == t0.archive;
  }

  lemma ReorgOverLets(c: Chain, t0: Tables, first: nat, t: Tables, lets: seq<BackwardLET>)
    requires Since(c, t0, first, t, lets) && lets != [] && Untouched(t0.archive, lets)
    ensures var r := ApplyReorg(c, t, first);
            if Cuts(|t0.bridge|, lets) <= 1 then r.Ok? && RebuiltTo(t0, r.value, |t0.bridge|) else r.Fail?
  {
    ReorgIsRestore(c, t0, first, t, lets);
    SinceIsRestorable(c, t0, first, t, lets);
    RestoreByCuts(c, t0, t.archive, lets, first, ReorgedDepositCounts(t.archive, first));
  }

  lemma ReorgArchive(c: Chain, t0: Tables, first: nat, t: Tables, lets: seq<BackwardLET>)
    requires Since(c, t0, first, t, lets) && lets != [] && ApplyReorg(c, t, first).Ok?
    ensures ApplyReorg(c, t, first).value.archive == t0.archive <==> Untouched(t0.archive, lets)
  {
    var m := Survivors(|t0.bridge|, lets);
    ReorgIsRestore(c, t0, first, t, lets);
    RestoreClears(c, Remains(t0, m, t.archive), lets, ReorgedDepositCounts(t.archive, first));
    ArchiveComesBack(t0, first, t.archive, m, lets);
  }

  /**
   Reorg leaves the tables of t0, up to the Source column, exactly when the
   BackwardLETs of the dropped blocks are undoable over t0.
   */
  lemma ReorgUndoes(c: Chain, t0: Tables, first: nat, t: Tables, lets: seq<BackwardLET>)
    requires Since(c, t0, first, t, lets)
    ensures ApplyReorg(c, t, first).Ok? && SameUpToSource(ApplyReorg(c, t, first).value, t0) <==> Undoable(t0, lets)
  {
    var r := ApplyReorg(c, t, first);
    if lets == [] {
      ReorgWithoutLets(c, t0, first, t);
    } else {
      if r.Ok? {
        ReorgArchive(c, t0, first, t, lets);
      }
      if Untouched(t0.archive, lets) {
        ReorgOverLets(c, t0, first, t, lets);
        assert t0.tree[..|t0.bridge|] == t0.tree;
      }
    }
  }

  /** The same over whole runs from an empty database: blocks below first, then blocks from first on, then the reorg. */
  lemma ReorgUndoesSuffix(c: Chain, kept: seq<Block>, dropped: seq<Block>, first: nat, t0: Tables, t: Tables)
    requires WellFormedRun(c, EMPTY_TABLES, kept) && ApplyBlocks(c, EMPTY_TABLES, kept) == Ok(t0)
    requires WellFormedRun(c, t0, dropped) && ApplyBlocks(c, t0, dropped) == Ok(t)
    requires forall i :: 0 <= i < |kept| ==> kept[i].num < first
    requires forall i :: 0 <= i < |dropped| ==> dropped[i].num >= first
    ensures ApplyReorg(c, t, first).Ok? && SameUpToSource(ApplyReorg(c, t, first).value, t0)
            <==> Undoable(t0, LetsIn(dropped))
  {
    RunGood(c, EMPTY_TABLES, kept);
    SinceStart(c, t0, first);
    assert [] + LetsIn(dropped) == LetsIn(dropped);
    SinceRun(c, t0, first, t0, [], dropped, LetsIn(dropped));
    ReorgUndoes(c, t0, first, t, LetsIn(dropped));
  }

  /** In particular a single BackwardLET is always undone when nothing in its closed range was archived before. */
  lemma ReorgUndoesOne(c: Chain, t0: Tables, first: nat, t: Tables, l: BackwardLET)
    requires Since(c, t0, first, t, [l])
    requires forall d :: l.newDepositCount <= d <= l.previousDepositCount ==> d !in t0.archive
    ensures ApplyReorg(c, t, first).Ok? && SameUpToSource(ApplyReorg(c, t, first).value, t0)
  {
    assert [l][..0] == [];
    assert Cuts(|t0.bridge|, [l]) <= 1;
    ReorgUndoes(c, t0, first, t, [l]);
  }
}
