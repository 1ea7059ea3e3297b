/**
 Finding the first verified batch whose local exit root covers a deposit: a
 binary search over the L1 blocks that hold verified batches, which gives up as
 soon as it meets an exit root the L2 tree does not know, and the linear scan it
 then falls back to.
 */
module BatchSearch {
  import opened Prelude
  import opened ExitRootTable

  // ----- the linear scan -----

  /** If the first batch of a block does not cover the deposit, no batch of that block is ever reported. */
  lemma NoneInBlock(s: Table, deposit: nat, i: nat)
    requires s.Sorted() && i < |s.rows| && s.FirstOfBlock(i) && !s.Covers(i, deposit)
    ensures forall k :: 0 <= k < |s.rows| && s.rows[k].blockNum == s.rows[i].blockNum ==> !s.Covers(k, deposit)
  {
    forall k | 0 <= k < |s.rows| && s.rows[k].blockNum == s.rows[i].blockNum ensures !s.Covers(k, deposit) {
      if k > i { assert s.rows[i].blockNum <= s.rows[k].blockNum; }
    }
  }

  datatype Scan = Found(batch: Row) | NotOnL1Info | NoSuchBatch

  ghost predicate CoversWithin(s: Table, i: nat, deposit: nat, firstBlock: int, lastBlock: int)
    requires i < |s.rows|
  {
    firstBlock <= s.rows[i].blockNum <= lastBlock && s.Covers(i, deposit)
  }

  ghost predicate NoneBelow(s: Table, deposit: nat, firstBlock: int, lastBlock: int, block: int) {
    forall k :: 0 <= k < |s.rows| && s.rows[k].blockNum < block ==> !CoversWithin(s, k, deposit, firstBlock, lastBlock)
  }

  /**
   The first covering batch in the given range of blocks. The lookup itself
   fails exactly when the scan runs past the newest batch.
   */
  method Linear(s: Table, firstBlock: uint64, lastBlock: BlockNum, deposit: nat) returns (r: Scan)
    requires s.Sorted()
    ensures r.Found? ==> exists i :: 0 <= i < |s.rows| && r.batch == s.rows[i]
                                     && CoversWithin(s, i, deposit, firstBlock, lastBlock)
                                     && NoneBelow(s, deposit, firstBlock, lastBlock, s.rows[i].blockNum)
    ensures !r.Found? ==> NoneBelow(s, deposit, firstBlock, lastBlock, lastBlock + 1)
    ensures r.NoSuchBatch? <==> !r.Found? && firstBlock <= lastBlock
                                && forall i :: 0 <= i < |s.rows| ==> s.rows[i].blockNum < lastBlock
  {
    var nextBlock: uint64 := firstBlock;
    while nextBlock <= lastBlock
      invariant firstBlock <= nextBlock
      invariant NoneBelow(s, deposit, firstBlock, lastBlock, nextBlock)
      invariant firstBlock < nextBlock ==> exists i :: 0 <= i < |s.rows| && s.rows[i].blockNum == nextBlock - 1
      decreases TWO_64 - nextBlock
    {
      s.AtIsFirst(nextBlock);
      var i := s.At(nextBlock);
      if i == |s.rows| { return NoSuchBatch; }
      var verified := s.rows[i];
      if verified.blockNum > lastBlock { break; }
      if s.Known(i) && s.Index(i) >= deposit { return Found(verified); }
      NoneInBlock(s, deposit, i);
      nextBlock := verified.blockNum + 1;
    }
    return NotOnL1Info;
  }

  // ----- the binary search -----

  datatype Action = Continue | Done | Fallback

  datatype Step = Step(best: Row, lower: int, upper: int, action: Action)

  /** One iteration; on Fallback the other parts are not used. */
  function SearchStep(s: Table, target: int, lower: int, upper: int, deposit: nat, best: Row): Step
    requires s.At(target) < |s.rows|
  {
    var i := s.At(target);
    var verified := s.rows[i];
    if verified.blockNum > upper then
      if target == 0 then Step(best, lower, upper, Done) else Step(best, lower, target - 1, Continue)
    else if !s.Known(i) then Step(best, 0, 0, Fallback)
    else if s.Index(i) < deposit then Step(best, verified.blockNum + 1, upper, Continue)
    else if s.Index(i) == deposit then Step(verified, lower, upper, Done)
    else if verified.blockNum == 0 then Step(verified, lower, upper, Done)
    else Step(verified, lower, verified.blockNum - 1, Continue)
  }

  /** What the data promises: batches in block order, a growing exit tree, and a last batch that opens its block. */
  ghost predicate Consistent(s: Table) {
    s.rows != [] && s.Sorted() && s.Monotone() && s.FirstOfBlock(|s.rows| - 1)
  }

  /** What the caller has checked besides: the last batch covers the deposit, if its root is known. */
  ghost predicate Searchable(s: Table, deposit: nat) {
    Consistent(s) && (s.Known(|s.rows| - 1) ==> s.Index(|s.rows| - 1) >= deposit)
  }

  /** Below lower nothing covers; best is the last batch, or covers and has no other batch between upper and itself. */
  ghost predicate Bounds(s: Table, deposit: nat, lower: int, upper: int, best: Row, b: nat)
    requires Searchable(s, deposit)
  {
    && s.rows[0].blockNum <= lower <= s.rows[|s.rows| - 1].blockNum
    && 0 <= upper <= s.rows[|s.rows| - 1].blockNum
    && (forall k :: 0 <= k < |s.rows| && s.rows[k].blockNum < lower ==> !s.Covers(k, deposit))
    && b < |s.rows| && best == s.rows[b]
    && if b == |s.rows| - 1 && upper == s.rows[b].blockNum then true
       else s.Covers(b, deposit) && upper < s.rows[b].blockNum
            && forall k :: 0 <= k < |s.rows| && s.rows[k].blockNum > upper ==> k >= b
  }

  /** A batch with the same root index as the one the linear scan returns, and that very batch when indices are distinct. */
  ghost predicate AsLinear(s: Table, deposit: nat, best: Row) {
    && s.FirstCovering(0, deposit).Some?
    && var k := s.FirstCovering(0, deposit).value;
       && k < |s.rows| && s.Known(k)
       && (exists b :: 0 <= b < |s.rows| && best == s.rows[b] && s.Known(b) && s.Index(b) == s.Index(k))
       && (s.StrictlyMonotone() ==> best == s.rows[k])
  }

  /** A covering batch with no earlier covering batch, or with an index equal to the deposit, is as good as the scan's. */
  lemma IsAsLinear(s: Table, deposit: nat, b: nat)
    requires Searchable(s, deposit) && b < |s.rows| && s.Covers(b, deposit)
    requires s.Index(b) == deposit || forall k :: 0 <= k < b ==> !s.Covers(k, deposit)
    ensures AsLinear(s, deposit, s.rows[b])
  {
    s.FirstCoveringIsFirst(0, deposit);
    assert s.FirstCovering(0, deposit).Some?;
    var k := s.FirstCovering(0, deposit).value;
    assert k <= b;
    assert k < b ==> s.Index(k) <= s.Index(b);
  }

  ghost predicate SomeRootMissing(s: Table) {
    exists k :: 0 <= k < |s.rows| && s.FirstOfBlock(k) && !s.Known(k)
  }

  /** What one step owes the loop, by the action it returns. */
  ghost predicate StepIsGood(s: Table, deposit: nat, lower: int, upper: int, r: Step, b: nat)
    requires Searchable(s, deposit)
  {
    match r.action
    case Continue => Bounds(s, deposit, r.lower, r.upper, r.best, b) && r.upper - r.lower < upper - lower
    case Done => AsLinear(s, deposit, r.best)
    case Fallback => SomeRootMissing(s)
  }

  lemma StepKeepsBounds(s: Table, deposit: nat, lower: int, upper: int, best: Row, b: nat) returns (b': nat)
    requires Searchable(s, deposit) && lower <= upper && Bounds(s, deposit, lower, upper, best, b)
    ensures var target := lower + (upper - lower) / 2;
            && s.At(target) < |s.rows|
            && StepIsGood(s, deposit, lower, upper, SearchStep(s, target, lower, upper, deposit, best), b')
  {
    var target := lower + (upper - lower) / 2;
    s.AtIsFirst(target);
    assert s.At(target) < |s.rows|;
    b' := b;
    var i := s.At(target);
    var block := s.rows[i].blockNum;
    if block > upper {
      MovesBelow(s, deposit, lower, upper, best, b, target);
    } else if s.Known(i) && s.Index(i) < deposit {
      MovesAbove(s, deposit, lower, upper, best, b, i);
    } else if s.Known(i) {
      b' := i;
      if s.Index(i) == deposit || block == 0 {
        IsAsLinear(s, deposit, i);
      } else {
        MovesTo(s, deposit, lower, upper, best, b, i);
      }
    }
  }

  /** Nothing lies between the target and upper, so upper may drop below the target. */
  lemma MovesBelow(s: Table, deposit: nat, lower: int, upper: int, best: Row, b: nat, target: int)
    requires Searchable(s, deposit) && lower <= target <= upper && Bounds(s, deposit, lower, upper, best, b)
    requires s.At(target) < |s.rows| && s.rows[s.At(target)].blockNum > upper
    ensures target > 0 && Bounds(s, deposit, lower, target - 1, best, b)
  {
    s.AtIsFirst(target);
    var last := |s.rows| - 1;
    assert s.rows[0].blockNum < target;
    assert s.rows[s.At(target)].blockNum <= s.rows[last].blockNum;
    assert upper != s.rows[last].blockNum;
    forall k | 0 <= k < |s.rows| && s.rows[k].blockNum > target - 1 ensures k >= b {
      assert k >= s.At(target);
      assert s.rows[k].blockNum >= s.rows[s.At(target)].blockNum;
    }
  }

  /** A known root below the deposit rules out everything up to the end of its block. */
  lemma MovesAbove(s: Table, deposit: nat, lower: int, upper: int, best: Row, b: nat, i: nat)
    requires Searchable(s, deposit) && Bounds(s, deposit, lower, upper, best, b)
    requires i < |s.rows| && lower <= s.rows[i].blockNum && s.FirstOfBlock(i)
    requires s.Known(i) && s.Index(i) < deposit
    ensures Bounds(s, deposit, s.rows[i].blockNum + 1, upper, best, b)
  {
    var last := |s.rows| - 1;
    assert i < last && s.rows[i].blockNum < s.rows[last].blockNum;
    forall k | 0 <= k < |s.rows| && s.rows[k].blockNum < s.rows[i].blockNum + 1 ensures !s.Covers(k, deposit) {
      if k < i && s.Known(k) { assert s.Index(k) <= s.Index(i); }
      if k > i { assert s.rows[i].blockNum <= s.rows[k].blockNum; }
    }
  }

  /** A covering batch becomes the best one, and the search goes on below its block. */
  lemma MovesTo(s: Table, deposit: nat, lower: int, upper: int, best: Row, b: nat, i: nat)
    requires Searchable(s, deposit) && Bounds(s, deposit, lower, upper, best, b)
    requires i < |s.rows| && lower <= s.rows[i].blockNum <= upper && s.Covers(i, deposit) && s.rows[i].blockNum > 0
    ensures Bounds(s, deposit, lower, s.rows[i].blockNum - 1, s.rows[i], i)
  {
    assert s.FirstOfBlock(i);
  }

  lemma InitialBounds(s: Table, deposit: nat)
    requires Searchable(s, deposit)
    ensures var last := |s.rows| - 1;
            Bounds(s, deposit, s.rows[0].blockNum, s.rows[last].blockNum, s.rows[last], last)
  {
    assert forall k :: 0 <= k < |s.rows| ==> s.rows[0].blockNum <= s.rows[k].blockNum;
  }

  lemma CrossedBoundsAnswer(s: Table, deposit: nat, lower: int, upper: int, best: Row, b: nat)
    requires Searchable(s, deposit) && lower > upper && Bounds(s, deposit, lower, upper, best, b)
    ensures AsLinear(s, deposit, best)
  {
    CrossedBoundsMeet(s, deposit, lower, upper, best, b);
    IsAsLinear(s, deposit, b);
  }

  lemma CrossedBoundsMeet(s: Table, deposit: nat, lower: int, upper: int, best: Row, b: nat)
    requires Searchable(s, deposit) && lower > upper && Bounds(s, deposit, lower, upper, best, b)
    ensures b < |s.rows| && best == s.rows[b] && s.Covers(b, deposit)
    ensures forall k :: 0 <= k < b ==> !s.Covers(k, deposit)
  {
    forall k | 0 <= k < b ensures !s.Covers(k, deposit) {
      assert s.rows[k].blockNum <= upper;
    }
  }

  /**
   The binary search stops, without its unsigned bounds ever wrapping, and
   either asks for the linear scan because some root is missing or returns a
   batch with the root index the scan would return.
   */
  method Binary(s: Table, deposit: nat) returns (best: Row, missing: bool)
    requires Searchable(s, deposit)
    ensures missing ==> SomeRootMissing(s)
    ensures !missing ==> AsLinear(s, deposit, best)
  {
    best := s.rows[|s.rows| - 1];
    var lower: uint64 := s.rows[0].blockNum;
    var upper: uint64 := best.blockNum;
    ghost var b: nat := |s.rows| - 1;
    InitialBounds(s, deposit);
    while lower <= upper
      invariant Bounds(s, deposit, lower, upper, best, b)
      decreases upper - lower + 1
    {
      ghost var b' := StepKeepsBounds(s, deposit, lower, upper, best, b);
      var target := lower + (upper - lower) / 2;
      var r := SearchStep(s, target, lower, upper, deposit, best);
      match r.action
      case Fallback => return best, true;
      case Done => return r.best, false;
      case Continue =>
        best, lower, upper := r.best, r.lower, r.upper;
        b := b';
    }
    CrossedBoundsAnswer(s, deposit, lower, upper, best, b);
    return best, false;
  }

  lemma EverythingIsInRange(s: Table, deposit: nat)
    requires s.Sorted() && s.rows != []
    ensures forall k :: 0 <= k < |s.rows| ==>
              CoversWithin(s, k, deposit, s.rows[0].blockNum, s.rows[|s.rows| - 1].blockNum) == s.Covers(k, deposit)
  {
  }

  /** The binary search with its fallback: whichever way it is answered, the result is the linear scan's. */
  method SearchWithFallback(s: Table, deposit: nat) returns (r: Option<Row>)
    requires Searchable(s, deposit)
    ensures r.Some? <==> s.FirstCovering(0, deposit).Some?
    ensures r.Some? ==> AsLinear(s, deposit, r.value)
  {
    var best, missing := Binary(s, deposit);
    if !missing { return Some(best); }
    var lastBlock := s.rows[|s.rows| - 1].blockNum;
    var scan := Linear(s, s.rows[0].blockNum, lastBlock, deposit);
    s.FirstCoveringIsFirst(0, deposit);
    EverythingIsInRange(s, deposit);
    if scan.Found? {
      ghost var i :| 0 <= i < |s.rows| && scan.batch == s.rows[i] && s.Covers(i, deposit)
                     && NoneBelow(s, deposit, s.rows[0].blockNum, lastBlock, s.rows[i].blockNum);
      IsAsLinear(s, deposit, i);
      return Some(scan.batch);
    }
    return None;
  }

  // ----- the whole lookup -----

  /** An L1 info tree leaf: its index and the rollup exit root it carries. */
  datatype InfoLeaf = InfoLeaf(index: nat, rollupExitRoot: Hash)

  datatype Answer = InfoIndex(index: nat) | NotCovered | NoInfoLeaf | NoBatch

  /** The first leaf, in the order of the L1 info tree, that carries a rollup exit root. */
  predicate IsFirstWith(infos: seq<InfoLeaf>, root: Hash, i: nat) {
    && i < |infos| && infos[i].rollupExitRoot == root
    && forall k :: 0 <= k < i ==> infos[k].rollupExitRoot != root
  }

  /** The lookup by rollup exit root, one leaf at a time. */
  method FirstWith(infos: seq<InfoLeaf>, root: Hash) returns (r: Option<nat>)
    ensures r.Some? ==> IsFirstWith(infos, root, r.value)
    ensures r.None? ==> forall k :: 0 <= k < |infos| ==> infos[k].rollupExitRoot != root
  {
    for i := 0 to |infos|
      invariant forall k :: 0 <= k < i ==> infos[k].rollupExitRoot != root
    {
      if infos[i].rollupExitRoot == root { return Some(i); }
    }
    return None;
  }

  /** The rollup exit root of an answer as good as the linear scan's, and its first L1 info leaf. */
  ghost predicate Proves(s: Table, infos: seq<InfoLeaf>, deposit: nat, index: nat) {
    exists b: nat, i: nat :: b < |s.rows| && AsLinear(s, deposit, s.rows[b])
                             && IsFirstWith(infos, s.rows[b].payload, i) && infos[i].index == index
  }

  /** Every verified batch's rollup exit root has reached the L1 info tree. */
  ghost predicate AllIncluded(s: Table, infos: seq<InfoLeaf>) {
    forall b :: 0 <= b < |s.rows| ==> exists k :: 0 <= k < |infos| && infos[k].rollupExitRoot == s.rows[b].payload
  }

  /**
   The L1 info tree index to prove an L2 deposit with. The tree's newest index
   stands in for the last batch when its root is unknown. NotCovered is the
   error ErrNotOnL1Info.
   */
  method FirstForDeposit(s: Table, treeIndex: nat, infos: seq<InfoLeaf>, deposit: nat) returns (r: Answer)
    requires s.rows != [] ==> Consistent(s)
    ensures r.NoBatch? <==> s.rows == []
    ensures s.rows != [] ==>
              (r.NotCovered? <==> s.FirstCovering(0, deposit).None? || (!s.Known(|s.rows| - 1) && treeIndex < deposit))
    ensures r.InfoIndex? ==> Proves(s, infos, deposit, r.index)
    ensures AllIncluded(s, infos) ==> !r.NoInfoLeaf?
  {
    if s.rows == [] { return NoBatch; }
    var last := |s.rows| - 1;
    var newest := if s.Known(last) then s.Index(last) else treeIndex;
    if newest < deposit {
      s.FirstCoveringIsFirst(0, deposit);
      assert forall k :: 0 <= k < last && s.Known(k) && s.Known(last) ==> s.Index(k) <= s.Index(last);
      return NotCovered;
    }
    var best := SearchWithFallback(s, deposit);
    if best.None? { return NotCovered; }
    ghost var b :| 0 <= b < |s.rows| && best.value == s.rows[b];
    var i := FirstWith(infos, best.value.payload);
    if i.None? { return NoInfoLeaf; }
    return InfoIndex(infos[i.value].index);
  }
}
