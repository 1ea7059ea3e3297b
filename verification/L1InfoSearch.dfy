/**
 Finding the first L1 info tree leaf whose mainnet exit root covers a deposit.
 Unlike the verified-batch search, this one moves its bounds around the probed
 block and lets the upper one wrap below zero.
 */
module L1InfoSearch {
  import opened Prelude
  import opened ExitRootTable

  datatype Outcome = Leaf(row: Row) | NotOnL1Info | NoSuchLeaf | NoSuchRoot | NotProcessed

  /** The newest root of the L1 bridge's exit tree. */
  datatype NewestRoot = NewestRoot(blockNum: nat, index: nat)

  /** Unsigned subtraction of one. */
  function Decrement(x: uint64): uint64 {
    if x == 0 then TWO_64 - 1 else x - 1
  }

  /** Leaves in block order in a growing exit tree, with block numbers in the lower half of the unsigned range. */
  ghost predicate Ordered(t: Table) {
    && t.Sorted() && t.Monotone()
    && forall i :: 0 <= i < |t.rows| ==> t.rows[i].blockNum < TWO_64 / 2 - 1
  }

  ghost predicate Consistent(t: Table) {
    t.rows != [] && Ordered(t)
  }

  /** The one shape on which the upper bound wraps: block 0 holds a leaf that is already past the deposit. */
  predicate Wraps(t: Table, deposit: nat)
    requires t.rows != []
  {
    t.rows[0].blockNum == 0 && t.Known(0) && t.Index(0) > deposit
  }

  /** Below lower nothing covers; best is the last leaf, or covers and has no other leaf between upper and itself. */
  ghost predicate Bounds(t: Table, deposit: nat, lower: int, upper: int, best: Row, b: nat)
    requires Consistent(t)
  {
    var last := |t.rows| - 1;
    && t.rows[0].blockNum <= lower <= t.rows[last].blockNum + 1
    && 0 <= upper <= t.rows[last].blockNum
    && (forall k :: 0 <= k < |t.rows| && t.rows[k].blockNum < lower ==> !t.Covers(k, deposit))
    && (Wraps(t, deposit) ==> lower == 0)
    && b < |t.rows| && best == t.rows[b]
    && if b == last && upper == t.rows[last].blockNum then true
       else t.Covers(b, deposit) && forall k :: 0 <= k < |t.rows| && t.rows[k].blockNum > upper ==> k >= b
  }

  /** Some leaf the lookups can return covers the deposit, or the last leaf does. */
  ghost predicate Covered(t: Table, deposit: nat)
    requires t.rows != []
  {
    var last := |t.rows| - 1;
    (t.Known(last) && t.Index(last) >= deposit) || exists k :: 0 <= k < |t.rows| && t.Covers(k, deposit)
  }

  /** A covering leaf of least root index among those the lookups can return; the last leaf when there is none. */
  ghost predicate LeastCovering(t: Table, deposit: nat, row: Row) {
    exists b :: 0 <= b < |t.rows| && row == t.rows[b] && t.Known(b) && t.Index(b) >= deposit
                && forall k :: 0 <= k < |t.rows| && t.Covers(k, deposit) ==> t.Index(b) <= t.Index(k)
  }

  lemma LowLeafRaisesLower(t: Table, deposit: nat, lower: int, upper: int, best: Row, b: nat, target: int)
    requires Consistent(t) && lower <= target <= upper && Bounds(t, deposit, lower, upper, best, b)
    requires t.At(target) < |t.rows| && t.Known(t.At(target)) && t.Index(t.At(target)) < deposit
    ensures Bounds(t, deposit, target + 1, upper, best, b)
  {
    t.AtIsFirst(target);
    var i := t.At(target);
    assert !Wraps(t, deposit);
    forall k | 0 <= k < |t.rows| && t.rows[k].blockNum < target + 1 ensures !t.Covers(k, deposit) {
      if k < i && t.Known(k) { assert t.Index(k) <= t.Index(i); }
      if k > i { assert t.rows[i].blockNum <= t.rows[k].blockNum; }
    }
  }

  lemma HighLeafLowersUpper(t: Table, deposit: nat, lower: int, upper: int, best: Row, b: nat, target: int)
    requires Consistent(t) && lower <= target <= upper && Bounds(t, deposit, lower, upper, best, b)
    requires t.At(target) < |t.rows| && t.Known(t.At(target)) && t.Index(t.At(target)) > deposit
    ensures t.Covers(t.At(target), deposit)
    ensures if target > 0 then Bounds(t, deposit, lower, target - 1, t.rows[t.At(target)], t.At(target))
            else Wraps(t, deposit) && lower == 0
  {
    t.AtIsFirst(target);
    if target == 0 {
      assert t.rows[0].blockNum == 0;
      assert t.At(0) == 0;
    }
  }

  lemma ExactLeafAnswers(t: Table, deposit: nat, i: nat)
    requires Consistent(t) && i < |t.rows| && t.Known(i) && t.Index(i) == deposit
    ensures LeastCovering(t, deposit, t.rows[i]) && !Wraps(t, deposit)
  {
    assert i > 0 && t.Known(0) ==> t.Index(0) <= t.Index(i);
  }

  lemma CrossedBoundsAnswer(t: Table, deposit: nat, lower: int, upper: int, best: Row, b: nat)
    requires Consistent(t) && lower > upper && Bounds(t, deposit, lower, upper, best, b)
    ensures !Wraps(t, deposit)
    ensures if Covered(t, deposit) then LeastCovering(t, deposit, best) else best == t.rows[|t.rows| - 1]
  {
    CrossedBoundsMeet(t, deposit, lower, upper, best, b);
    if Covered(t, deposit) {
      forall k | 0 <= k < |t.rows| && t.Covers(k, deposit) ensures t.Index(b) <= t.Index(k) {}
    }
  }

  lemma CrossedBoundsMeet(t: Table, deposit: nat, lower: int, upper: int, best: Row, b: nat)
    requires Consistent(t) && lower > upper && Bounds(t, deposit, lower, upper, best, b)
    ensures b < |t.rows| && best == t.rows[b] && !Wraps(t, deposit)
    ensures if Covered(t, deposit) then t.Known(b) && t.Index(b) >= deposit else b == |t.rows| - 1
    ensures forall k :: 0 <= k < |t.rows| && t.Covers(k, deposit) ==> k >= b
  {
    forall k | 0 <= k < |t.rows| && t.Covers(k, deposit) ensures k >= b {
      assert t.rows[k].blockNum >= lower;
    }
  }

  /** Every block number is below the block probed after a wrap. */
  lemma NothingAfterWrap(t: Table)
    requires Consistent(t)
    ensures t.At((TWO_64 - 1) / 2) == |t.rows|
  {
    t.AtIsFirst((TWO_64 - 1) / 2);
  }

  // ----- the search over the first n leaves -----

  function First(t: Table, n: nat): Table
    requires n <= |t.rows|
  {
    t.(rows := t.rows[..n])
  }

  lemma FirstIsConsistent(t: Table, n: nat)
    requires Ordered(t) && 0 < n <= |t.rows|
    ensures Consistent(First(t, n))
  {
    var p := First(t, n);
    forall i, j | 0 <= i < j < n && p.Known(i) && p.Known(j) ensures p.Index(i) <= p.Index(j) {
      assert t.Known(i) && t.Known(j);
    }
  }

  /** Up to the block of the n-th leaf, a lookup in the whole table lands among the first n. */
  lemma LookupStaysBelow(t: Table, n: nat, target: int)
    requires t.Sorted() && 0 < n <= |t.rows| && target <= t.rows[n - 1].blockNum
    ensures t.At(target) == First(t, n).At(target) < n
  {
    t.AtIsFirst(target);
    First(t, n).AtIsFirst(target);
  }

  /** A leaf that covers the deposit with least root index, or the last one searched if none covers it. */
  ghost predicate Answers(p: Table, deposit: nat, r: Outcome)
    requires p.rows != []
  {
    && !r.NotOnL1Info? && !r.NotProcessed?
    && (r.NoSuchRoot? ==> exists k :: 0 <= k < |p.rows| && p.FirstOfBlock(k) && !p.Known(k))
    && (!r.NoSuchRoot? ==> (r.NoSuchLeaf? <==> Wraps(p, deposit)))
    && (r.Leaf? ==> if Covered(p, deposit) then LeastCovering(p, deposit, r.row) else r.row == p.rows[|p.rows| - 1])
  }

  /** The leaf answered covers the deposit exactly when a leaf the lookups can return does, or the last one searched. */
  lemma AnswerCoversIff(p: Table, deposit: nat, r: Outcome)
    requires Consistent(p) && r.Leaf? && Answers(p, deposit, r)
    ensures (r.row.exitRoot in p.rootIndex && p.rootIndex[r.row.exitRoot] >= deposit) <==> Covered(p, deposit)
  {
    if Covered(p, deposit) {
      var b :| 0 <= b < |p.rows| && r.row == p.rows[b] && p.Known(b) && p.Index(b) >= deposit;
    }
  }

  /**
   The search ends with a covering leaf of least root index, if there is one. It
   fails on an unknown root only when it meets one, and reports a missing leaf
   exactly on the wrapping shape.
   */
  method Search(t: Table, n: nat, deposit: nat) returns (r: Outcome)
    requires Ordered(t) && 0 < n <= |t.rows|
    ensures Answers(First(t, n), deposit, r)
  {
    ghost var p := First(t, n);
    FirstIsConsistent(t, n);
    var best := t.rows[n - 1];
    var lower: uint64 := t.rows[0].blockNum;
    var upper: uint64 := best.blockNum;
    ghost var b: nat := n - 1;
    ghost var wrapped := false;
    while lower <= upper
      invariant if wrapped then Wraps(p, deposit) && lower == 0 && upper == TWO_64 - 1
                else Bounds(p, deposit, lower, upper, best, b)
      decreases !wrapped, upper - lower + 1
    {
      var target := lower + (upper - lower) / 2;
      if wrapped { NothingAfterWrap(t); } else { LookupStaysBelow(t, n, target); }
      var i := t.At(target);
      if i == |t.rows| { return NoSuchLeaf; }
      p.AtIsFirst(target);
      if !t.Known(i) { return NoSuchRoot; }
      if t.Index(i) < deposit {
        LowLeafRaisesLower(p, deposit, lower, upper, best, b, target);
        lower := target + 1;
      } else if t.Index(i) == deposit {
        ExactLeafAnswers(p, deposit, i);
        assert p.Covers(i, deposit);
        return Leaf(t.rows[i]);
      } else {
        HighLeafLowersUpper(p, deposit, lower, upper, best, b, target);
        best, upper := t.rows[i], Decrement(target);
        b, wrapped := i, target == 0;
      }
    }
    CrossedBoundsAnswer(p, deposit, lower, upper, best, b);
    return Leaf(best);
  }

  // ----- the whole lookup -----

  predicate LastRootKnown(t: Table) {
    t.rows != [] && t.Known(|t.rows| - 1)
  }

  /** How many leaves the newest root's block and the blocks before it hold. */
  function Clamped(t: Table, newest: NewestRoot): nat {
    t.At(newest.blockNum + 1)
  }

  /**
   The leaf to prove an L1 deposit with. If the exit root of the last leaf is
   known, that root's index decides whether the deposit is covered. Otherwise
   the newest root of the bridge decides, and the search is clamped to its block.
   */
  method FirstForDeposit(t: Table, newest: Option<NewestRoot>, processed: nat, deposit: nat) returns (r: Outcome)
    requires Ordered(t)
    ensures t.rows == [] ==> r == NoSuchLeaf
    ensures LastRootKnown(t) ==>
              (r.NotOnL1Info? <==> forall k :: 0 <= k < |t.rows| && t.Known(k) ==> t.Index(k) < deposit)
    ensures LastRootKnown(t) && !r.NotOnL1Info? ==> Covered(t, deposit) && Answers(t, deposit, r)
    ensures t.rows != [] && !LastRootKnown(t) ==> FallbackAnswers(t, newest, processed, deposit, r)
  {
    var n := |t.rows|;
    if n == 0 { return NoSuchLeaf; }
    assert First(t, n) == t;
    if t.Known(n - 1) {
      if t.Index(n - 1) < deposit {
        assert forall k :: 0 <= k < n - 1 && t.Known(k) ==> t.Index(k) <= t.Index(n - 1);
        return NotOnL1Info;
      }
    } else {
      if newest.None? { return NoSuchRoot; }
      if newest.value.blockNum == 0 { return NotOnL1Info; }
      if processed < newest.value.blockNum { return NotProcessed; }
      t.AtIsFirst(newest.value.blockNum + 1);
      n := Clamped(t, newest.value);
      if n == 0 { return NoSuchLeaf; }
      if newest.value.index < deposit { return NotOnL1Info; }
    }
    r := Search(t, n, deposit);
  }

  ghost predicate FallbackAnswers(t: Table, newest: Option<NewestRoot>, processed: nat, deposit: nat, r: Outcome) {
    if newest.None? then r.NoSuchRoot?
    else if newest.value.blockNum == 0 then r.NotOnL1Info?
    else if processed < newest.value.blockNum then r.NotProcessed?
    else
      var n := Clamped(t, newest.value);
      if n == 0 then r.NoSuchLeaf?
      else if newest.value.index < deposit then r.NotOnL1Info?
      else n <= |t.rows| && Answers(First(t, n), deposit, r)
  }

  /** The wrapping shape exists: a single leaf in block 0 that covers the deposit is not found. */
  lemma WrapExample() returns (t: Table)
    ensures Consistent(t) && t.Known(0) && |t.rows| == 1 && t.Covers(0, 0) && Wraps(t, 0)
  {
    t := Table([Row(0, 7, 0)], map[7 := 5]);
  }

  /**
   Clamped, the answer need not cover the deposit: the bridge has it since block
   6, the only leaf up to there is older, and that leaf is returned.
   */
  method ClampedLeafFallsShort() returns (t: Table, r: Outcome)
    ensures Ordered(t) && |t.rows| == 2 && t.Known(0) && t.Index(0) == 0
    ensures r == Leaf(t.rows[0])
  {
    t := Table([Row(5, 7, 0), Row(10, 8, 1)], map[7 := 0]);
    t.AtIsFirst(7);
    r := FirstForDeposit(t, Some(NewestRoot(6, 3)), 10, 2);
  }
}
