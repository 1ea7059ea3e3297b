/**
 The bridge syncer's processor: it updates its tables in place while a
 transaction is open and puts the old ones back when the transaction fails.
 Each method is proved against the function of BridgeTables it computes.
 */
module BridgeProcessor {
  import opened Prelude
  import opened BridgeTables
  import opened BridgeAgreement
  import BridgeOrder
  import BridgeRuns
  import opened BridgeEvents

  class Processor {
    const chain: Chain
    var tables: Tables
    var halted: bool

    constructor (chain: Chain)
      ensures this.chain == chain && tables == EMPTY_TABLES && !halted
    {
      this.chain := chain;
      tables, halted := EMPTY_TABLES, false;
    }

    ghost function State(): Syncer
      reads this
    {
      Syncer(tables, halted)
    }

    /** The table and the tree agree. */
    ghost predicate Valid()
      reads this
    {
      Agree(chain, tables)
    }

    method ArchiveAndDeleteBridgesAbove(n: nat)
      modifies this`tables
      ensures tables == ArchiveAndDeleteFrom(old(tables), n)
    {
      var bridges := AtOrAbove(tables.bridge, n);
      var i := 0;
      while i < |bridges|
        invariant 0 <= i <= |bridges|
        invariant tables == old(tables).(archive := tables.archive)
        invariant ArchiveAll(tables.archive, bridges[i..]) == ArchiveAll(old(tables.archive), bridges)
      {
        var b := bridges[i];
        assert bridges[i..][1..] == bridges[i + 1..];
        if b.depositCount !in tables.archive {
          tables := tables.(archive := tables.archive[b.depositCount := Archived(b)]);
        }
        i := i + 1;
      }
      tables := tables.(bridge := Below(tables.bridge, n));
    }

    method InsertBackwardLET(e: BackwardLET) returns (failure: Option<Failure>)
      modifies this`tables
      ensures failure.None? <==> ApplyBackward(chain, old(tables), e).Ok?
      ensures failure.None? ==> ApplyBackward(chain, old(tables), e) == Ok(tables)
      ensures failure.Some? ==> ApplyBackward(chain, old(tables), e) == Fail(failure.value)
      ensures failure.None? && old(Valid()) ==>
                Valid() && tables.bridge == old(tables.bridge)[..Min(e.newDepositCount, old(|tables.bridge|))]
      ensures failure.None? ==> Names(chain, old(Hashes(tables.tree)), e.previousRoot) && Names(chain, Hashes(tables.tree), e.newRoot)
      ensures !Names(chain, old(Hashes(tables.tree)), e.previousRoot) ==> failure == Some(Rejected)
      ensures FitsUint32(e.newDepositCount) && !Names(chain, Kept(old(tables), e.newDepositCount), e.newRoot) ==>
                failure == Some(Rejected)
    {
      BackwardAcceptedIff(chain, tables, e);
      if Valid() && 0 <= e.newDepositCount {
        TruncateCuts(chain, tables, e.newDepositCount);
        TruncateAgrees(chain, tables, e.newDepositCount);
      }
      if !MatchesLER(chain, tables, e.previousRoot) { return Some(Rejected); }
      if !FitsUint32(e.newDepositCount) { return Some(Rejected); }
      ArchiveAndDeleteBridgesAbove(e.newDepositCount);
      tables := tables.(tree := KeepLeaves(tables.tree, e.newDepositCount));
      if !MatchesLER(chain, tables, e.newRoot) { return Some(Rejected); }
      match InsertBackward(tables, e)
      case Fail(why) => return Some(why);
      case Ok(t) =>
        tables := t;
        return None;
    }

    /** The loop over the leaves of a ForwardLET; the result is the block position after the last one. */
    method AppendForwardLeaves(e: ForwardLET, leaves: seq<LeafData>, first: uint32, start: nat) returns (r: Result<nat>)
      modifies this
      ensures r.Ok? ==> AppendLeaves(chain, old(tables), e, leaves, first, start) == Ok(tables)
                        && r.value == start + |leaves| && halted == old(halted)
      ensures r.Fail? ==> AppendLeaves(chain, old(tables), e, leaves, first, start) == Fail(r.why)
      ensures r.Fail? ==> halted == (old(halted) || r.why.InvalidIndex?)
    {
      var index, newPos := first, start;
      var i := 0;
      while i < |leaves|
        invariant 0 <= i <= |leaves| && newPos == start + i && halted == old(halted)
        invariant AppendLeaves(chain, tables, e, leaves[i..], index, newPos)
                  == AppendLeaves(chain, old(tables), e, leaves, first, start)
      {
        assert leaves[i..][0] == leaves[i] && leaves[i..][1..] == leaves[i + 1..];
        match AddBridge(chain, tables, e.blockNum, ForwardBridge(tables.archive, e, leaves[i], index, newPos))
        case Fail(why) =>
          if why.InvalidIndex? { halted := true; }
          return Fail(why);
        case Ok(t) =>
          tables := t;
          index, newPos := NextUint32(index), newPos + 1;
          i := i + 1;
      }
      return Ok(newPos);
    }

    /** On success the result is the block position after the last leaf. */
    method HandleForwardLET(e: ForwardLET, pos: Option<nat>) returns (r: Result<nat>)
      modifies this
      ensures r.Ok? ==> ApplyForward(chain, old(tables), e, pos) == Ok((tables, r.value)) && halted == old(halted)
      ensures r.Fail? ==> ApplyForward(chain, old(tables), e, pos) == Fail(r.why)
      ensures r.Fail? ==> halted == (old(halted) || r.why.InvalidIndex?)
      ensures r.Ok? ==> && Names(chain, old(Hashes(tables.tree)), e.previousRoot) && Names(chain, Hashes(tables.tree), e.newRoot)
                        && e.newLeaves.Some?
                        && Hashes(tables.tree) == old(Hashes(tables.tree)) + LeafHashes(chain, e.newLeaves.value)
      ensures !Names(chain, old(Hashes(tables.tree)), e.previousRoot) ==> r == Fail(Rejected) && halted == old(halted)
    {
      ForwardChecksRoots(chain, tables, e, pos);
      if !MatchesLER(chain, tables, e.previousRoot) { return Fail(Rejected); }
      if e.newLeaves.None? { return Fail(Rejected); }
      var index: uint32 := 0;
      if e.previousRoot != chain.initialLER {
        if !FitsUint32(e.previousDepositCount) { return Fail(Rejected); }
        index := e.previousDepositCount;
      }
      r := AppendForwardLeaves(e, e.newLeaves.value, index, ForwardStart(e, pos));
      if r.Fail? { return; }
      if !MatchesLER(chain, tables, e.newRoot) { return Fail(Rejected); }
      match InsertForward(tables, e)
      case Fail(why) => return Fail(why);
      case Ok(t) => tables := t;
    }

    /** One event of an open transaction; an error halts the processor when the tree refused a leaf. */
    method HandleEvent(num: nat, e: Event, pos: Option<nat>) returns (r: Result<Option<nat>>)
      modifies this
      ensures r.Ok? ==> ApplyEvent(chain, old(tables), num, e, pos) == Ok((tables, r.value)) && halted == old(halted)
      ensures r.Fail? ==> ApplyEvent(chain, old(tables), num, e, pos) == Fail(r.why)
      ensures r.Fail? ==> halted == (old(halted) || r.why.InvalidIndex?)
      ensures r.Ok? && old(Valid()) ==> Valid()
      ensures r.Ok? && old(Valid()) ==>
                ReplayEvent(chain, old(Exits(tables)), num, e, pos) == Some((Exits(tables), r.value))
    {
      if Valid() && ApplyEvent(chain, tables, num, e, pos).Ok? { EventReplays(chain, tables, num, e, pos); }
      match e
      case BridgeEvent(b) =>
        match AddBridge(chain, tables, num, Placed(b, pos)) {
          case Fail(why) =>
            if why.InvalidIndex? { halted := true; }
            return Fail(why);
          case Ok(t) =>
            tables := t;
            return Ok(Advanced(pos));
        }
      case BackwardEvent(l) =>
        var failure := InsertBackwardLET(l);
        if failure.Some? { return Fail(failure.value); }
        return Ok(pos);
      case ForwardEvent(f) =>
        var after := HandleForwardLET(f, pos);
        if after.Fail? { return Fail(after.why); }
        return Ok(Some(after.value));
    }

    /** All of the block or nothing of it. published says that bridge subscribers are told of the block. */
    method ProcessBlock(b: Block) returns (ok: bool, published: bool)
      modifies this
      ensures old(Valid()) ==> Valid()
      ensures State() == BridgeAgreement.ProcessBlock(chain, old(State()), b)
      ensures ok <==> !old(halted) && ApplyBlock(chain, old(tables), b).Ok?
      ensures !ok ==> tables == old(tables)
      ensures published <==> ok && exists i :: 0 <= i < |b.events| && b.events[i].BridgeEvent?
      ensures ok && old(Valid()) ==> Replay(chain, old(Exits(tables)), b.num, b.events, None) == Some(Exits(tables))
    {
      if halted { return false, false; }
      var saved := tables;
      tables := tables.(blocks := tables.blocks + {b.num});
      var pos: Option<nat> := None;
      var hasAnyBridge := false;
      var i := 0;
      while i < |b.events|
        invariant 0 <= i <= |b.events| && !halted
        invariant ApplyEvents(chain, tables, b.num, b.events[i..], pos) == ApplyBlock(chain, saved, b)
        invariant hasAnyBridge <==> exists j :: 0 <= j < i && b.events[j].BridgeEvent?
      {
        assert b.events[i..][0] == b.events[i] && b.events[i..][1..] == b.events[i + 1..];
        var r := HandleEvent(b.num, b.events[i], pos);
        if r.Fail? {
          tables := saved;
          return false, false;
        }
        hasAnyBridge := hasAnyBridge || b.events[i].BridgeEvent?;
        pos := r.value;
        i := i + 1;
      }
      if Agree(chain, saved) { BlockReplays(chain, saved, b); }
      return true, hasAnyBridge;
    }

    /** Bring back what the BackwardLETs archived, one archived row at a time. */
    method RestoreBackwardLETBridges(lets: seq<BackwardLET>, removed: set<nat>) returns (failure: Option<Failure>)
      modifies this`tables
      ensures failure.None? ==> Restore(chain, old(tables), lets, removed) == Ok(tables)
      ensures failure.Some? ==> Restore(chain, old(tables), lets, removed) == Fail(failure.value)
    {
      var j := 0;
      while j < |lets|
        invariant 0 <= j <= |lets|
        invariant Restore(chain, tables, lets[j..], removed) == Restore(chain, old(tables), lets, removed)
      {
        var l := lets[j];
        assert lets[j..][0] == l && lets[j..][1..] == lets[j + 1..];
        if !FitsUint64(l.previousDepositCount) || !FitsUint64(l.newDepositCount) { return Some(Rejected); }
        failure := RestoreOne(ArchiveRows(tables.archive, l.newDepositCount, l.previousDepositCount + 1), removed);
        if failure.Some? { return; }
        tables := tables.(archive := WithoutRange(tables.archive, l.newDepositCount, l.previousDepositCount));
        j := j + 1;
      }
      return None;
    }

    method RestoreOne(rows: seq<Bridge>, removed: set<nat>) returns (failure: Option<Failure>)
      modifies this`tables
      ensures failure.None? ==> RestoreRows(chain, old(tables), rows, removed) == Ok(tables)
      ensures failure.Some? ==> RestoreRows(chain, old(tables), rows, removed) == Fail(failure.value)
    {
      var i := 0;
      while i < |rows|
        invariant 0 <= i <= |rows|
        invariant RestoreRows(chain, tables, rows[i..], removed) == RestoreRows(chain, old(tables), rows, removed)
      {
        assert rows[i..][0] == rows[i] && rows[i..][1..] == rows[i + 1..];
        if rows[i].depositCount !in removed {
          var b := rows[i].(source := Live);
          match InsertBridge(tables, b) {
            case Fail(why) => return Some(why);
            case Ok(t1) =>
              match PutLeaf(t1, b.depositCount, Leaf(chain.leafHash(b.leaf), b.blockNum, b.blockPos)) {
                case Fail(why) => return Some(why);
                case Ok(t2) => tables := t2;
              }
          }
        }
        i := i + 1;
      }
      return None;
    }

    /** Purge the blocks from first on. A committed purge always clears the halt; a failed one changes nothing. */
    method Reorg(first: nat) returns (ok: bool)
      modifies this
      ensures ok <==> ApplyReorg(chain, old(tables), first).Ok?
      ensures ok ==> ApplyReorg(chain, old(tables), first) == Ok(tables) && !halted
      ensures !ok ==> State() == old(State())
      ensures old(BridgeOrder.Good(chain, tables)) ==> Valid()
    {
      if BridgeOrder.Good(chain, tables) && ApplyReorg(chain, tables, first).Ok? {
        BridgeRuns.ReorgAgrees(chain, tables, first);
      }
      var saved := tables;
      var lets := BackwardFrom(tables.backward, first);
      var removed: set<nat> := {};
      if lets != [] {
        removed := ReorgedDepositCounts(tables.archive, first);
      }
      tables := DropBlocks(tables, first);
      var failure := RestoreBackwardLETBridges(lets, removed);
      if failure.Some? {
        tables := saved;
        return false;
      }
      halted := false;
      return true;
    }
  }
}
