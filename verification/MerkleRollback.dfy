/**
 A rolled-back transaction takes back the stored roots and the cached last
 index, but not the cached left siblings its leaves have overwritten. Exactly
 how many rolled-back leaves that can survive is RollbackIsHarmlessIff.
 */
module MerkleRollback {
  import opened Prelude
  import opened MerkleTree

  /** The left cache after putting leaves at indices n, n + 1, ... */
  function CacheAfter(h: Hasher, cache: seq<Hash>, n: nat, xs: seq<Hash>): (r: seq<Hash>)
    ensures |r| == |cache|
    decreases |xs|
  {
    if xs == [] then cache else CacheAfter(h, PutCache(h, cache, n, xs[0]), n + 1, xs[1..])
  }

  /** The value and the position of the lowest bit set in n. */
  function LowBit(n: nat): nat
    requires n > 0
  {
    if n % 2 == 1 then 1 else 2 * LowBit(n / 2)
  }

  function LowLevel(n: nat): nat
    requires n > 0
  {
    if n % 2 == 1 then 0 else LowLevel(n / 2) + 1
  }

  // ----- indices near n -----

  lemma {:induction false} LowLevelIsLowest(n: nat, level: nat)
    requires n > 0
    ensures level <= LowLevel(n) ==> (Bit(n, level) <==> level == LowLevel(n))
  {
    if n % 2 == 0 && level > 0 {
      LowLevelIsLowest(n / 2, level - 1);
      ShiftHalf(n, level - 1);
    }
  }

  /** Up to the lowest bit of n, adding to n moves nothing above that bit. */
  lemma {:induction false} NoCarry(n: nat, i: nat, level: nat)
    requires n > 0 && i < LowBit(n) && level >= LowLevel(n)
    ensures Shift(n + i, level) == Shift(n, level)
  {
    if n % 2 == 0 {
      NoCarry(n / 2, i / 2, level - 1);
      ShiftHalf(n, level - 1);
      ShiftHalf(n + i, level - 1);
      assert (n + i) / 2 == n / 2 + i / 2;
    }
  }

  lemma {:induction false} CarryAtLowBit(n: nat)
    requires n > 0
    ensures Shift(n + LowBit(n), LowLevel(n)) == Shift(n, LowLevel(n)) + 1
  {
    if n % 2 == 0 {
      var level := LowLevel(n / 2);
      CarryAtLowBit(n / 2);
      ShiftHalf(n, level);
      ShiftHalf(n + LowBit(n), level);
      assert (n + LowBit(n)) / 2 == n / 2 + LowBit(n / 2);
    }
  }

  /** The index LowBit(n) past n does not have that bit. */
  lemma LowBitClearsIt(n: nat, i: nat)
    requires n > 0 && i >= LowBit(n) && Bit(n + i, LowLevel(n))
    ensures i > LowBit(n)
  {
    CarryAtLowBit(n);
    LowLevelIsLowest(n, LowLevel(n));
  }

  lemma LowLevelFits(n: nat, height: nat)
    requires 0 < n < Pow2(height)
    ensures LowLevel(n) < height
  {
    LowLevelIsLowest(n, LowLevel(n));
    if LowLevel(n) >= height {
      ShiftToRoot(n, height);
      ShiftStaysZero(n, height, LowLevel(n));
    }
  }

  lemma {:induction false} ShiftStaysZero(n: nat, low: nat, high: nat)
    requires low <= high && Shift(n, low) == 0
    ensures Shift(n, high) == 0
    decreases high - low
  {
    if low < high { ShiftStaysZero(n, low + 1, high); }
  }

  // ----- few leaves -----

  /** At most LowBit(n) rolled-back leaves leave every entry the next put needs as it was. */
  lemma {:induction false} EntrySurvives(h: Hasher, cache: seq<Hash>, n: nat, i: nat, xs: seq<Hash>, level: nat)
    requires n > 0 && i + |xs| <= LowBit(n) && level < |cache| && Bit(n, level)
    ensures CacheAfter(h, cache, n + i, xs)[level] == cache[level]
    decreases |xs|
  {
    if xs != [] {
      LowLevelIsLowest(n, level);
      NoCarry(n, i, level);
      EntrySurvives(h, PutCache(h, cache, n + i, xs[0]), n, i + 1, xs[1..], level);
    }
  }

  lemma ShortBatchIsHarmless(h: Hasher, leaves: seq<Hash>, cache: seq<Hash>, xs: seq<Hash>)
    requires CacheOk(h, leaves, cache)
    requires leaves == [] || |xs| <= LowBit(|leaves|)
    ensures CacheOk(h, leaves, CacheAfter(h, cache, |leaves|, xs))
  {
    var after := CacheAfter(h, cache, |leaves|, xs);
    forall level {:trigger after[level]} | 0 <= level < |after| && Bit(|leaves|, level)
      ensures after[level] == LeftOfPath(h, leaves, level)
    {
      if leaves == [] {
        ShiftStaysZero(0, 0, level);
      } else {
        EntrySurvives(h, cache, |leaves|, 0, xs, level);
      }
      assert cache[level] == LeftOfPath(h, leaves, level);
    }
  }

  // ----- many leaves -----

  /** The first index under a position. */
  function FirstUnder(pos: nat, level: nat): nat
    decreases level
  {
    if level == 0 then pos else FirstUnder(2 * pos, level - 1)
  }

  lemma {:induction false} FirstUnderIsFirst(pos: nat, level: nat, index: nat)
    ensures Shift(FirstUnder(pos, level), level) == pos
    ensures Shift(index, level) == pos ==> FirstUnder(pos, level) <= index
    ensures Shift(index, level) < pos ==> index < FirstUnder(pos, level)
    decreases level
  {
    if level > 0 {
      FirstUnderIsFirst(2 * pos, level - 1, index);
      if Shift(index, level) == pos && Shift(index, level - 1) != 2 * pos {
        ShiftMonotoneStrict(FirstUnder(2 * pos, level - 1), index, level - 1);
      }
    }
  }

  lemma ShiftMonotoneStrict(i: nat, j: nat, level: nat)
    requires Shift(i, level) < Shift(j, level)
    ensures i < j
  {
    if j <= i { ShiftMonotone(j, i, level); }
  }

  /** Equal nodes, wherever they are, start with equal leaves. */
  lemma {:induction false} NodeDeterminesFirstLeaf(h: Hasher, a: seq<Hash>, b: seq<Hash>, level: nat, p: nat, q: nat)
    requires Injective(h) && Node(h, a, level, p) == Node(h, b, level, q)
    ensures LeafAt(a, FirstUnder(p, level)) == LeafAt(b, FirstUnder(q, level))
  {
    if level > 0 {
      SamePreimage(h, Node(h, a, level - 1, 2 * p), Node(h, a, level - 1, 2 * p + 1),
                   Node(h, b, level - 1, 2 * q), Node(h, b, level - 1, 2 * q + 1));
      NodeDeterminesFirstLeaf(h, a, b, level - 1, 2 * p, 2 * q);
    }
  }

  lemma {:induction false} CacheAfterSnoc(h: Hasher, cache: seq<Hash>, n: nat, xs: seq<Hash>, y: Hash)
    ensures CacheAfter(h, cache, n, xs + [y]) == PutCache(h, CacheAfter(h, cache, n, xs), n + |xs|, y)
    decreases |xs|
  {
    if xs == [] {
      assert [y][1..] == [];
      assert xs + [y] == [y];
    } else {
      assert (xs + [y])[0] == xs[0] && (xs + [y])[1..] == xs[1..] + [y];
      CacheAfterSnoc(h, PutCache(h, cache, n, xs[0]), n + 1, xs[1..], y);
    }
  }

  function Repeat(x: Hash, k: nat): seq<Hash> {
    seq(k, i => x)
  }

  lemma RepeatSnoc(x: Hash, k: nat)
    ensures Repeat(x, k + 1) == Repeat(x, k) + [x]
  {
  }

  lemma {:induction false} BatchKeepsCache(h: Hasher, leaves: seq<Hash>, cache: seq<Hash>, x: Hash, k: nat)
    requires CacheOk(h, leaves, cache) && |leaves| + k <= Pow2(|cache|)
    ensures CacheOk(h, leaves + Repeat(x, k), CacheAfter(h, cache, |leaves|, Repeat(x, k)))
  {
    if k == 0 {
      assert leaves + Repeat(x, 0) == leaves;
    } else {
      BatchKeepsCache(h, leaves, cache, x, k - 1);
      RepeatSnoc(x, k - 1);
      CacheAfterSnoc(h, cache, |leaves|, Repeat(x, k - 1), x);
      var before := leaves + Repeat(x, k - 1);
      PutIsRight(h, before, CacheAfter(h, cache, |leaves|, Repeat(x, k - 1)), x);
      assert before + [x] == leaves + Repeat(x, k);
    }
  }

  /** The last of k puts writes the entry at a level where its index has no bit. */
  lemma FreshWrite(h: Hasher, leaves: seq<Hash>, cache: seq<Hash>, x: Hash, k: nat, level: nat)
    requires CacheOk(h, leaves, cache) && |leaves| + k < Pow2(|cache|)
    requires level < |cache| && !Bit(|leaves| + k, level)
    ensures CacheAfter(h, cache, |leaves|, Repeat(x, k + 1))[level]
            == Node(h, leaves + Repeat(x, k + 1), level, Shift(|leaves| + k, level))
  {
    var xs := Repeat(x, k);
    RepeatSnoc(x, k);
    CacheAfterSnoc(h, cache, |leaves|, xs, x);
    BatchKeepsCache(h, leaves, cache, x, k);
    PathNodeIsNode(h, leaves + xs, CacheAfter(h, cache, |leaves|, xs), x, level);
    assert leaves + xs + [x] == leaves + Repeat(x, k + 1);
  }

  lemma KeptWrite(h: Hasher, cache: seq<Hash>, n: nat, x: Hash, k: nat, level: nat)
    requires level < |cache| && Bit(n + k, level)
    ensures CacheAfter(h, cache, n, Repeat(x, k + 1))[level] == CacheAfter(h, cache, n, Repeat(x, k))[level]
  {
    RepeatSnoc(x, k);
    CacheAfterSnoc(h, cache, n, Repeat(x, k), x);
  }

  /** Past the lowest bit of n, that bit is clear at some index n + j, and set at every later one. */
  lemma {:induction false} LastClear(n: nat, k: nat) returns (j: nat)
    requires n > 0 && k > LowBit(n)
    ensures LowBit(n) <= j < k && !Bit(n + j, LowLevel(n))
    ensures forall i {:trigger Bit(i, LowLevel(n))} :: n + j < i < n + k ==> Bit(i, LowLevel(n))
  {
    if Bit(n + k - 1, LowLevel(n)) {
      LowBitClearsIt(n, k - 1);
      j := LastClear(n, k - 1);
    } else {
      j := k - 1;
    }
  }

  /** While the bit is set, the entry is kept. */
  lemma {:induction false} KeptWrites(h: Hasher, cache: seq<Hash>, n: nat, x: Hash, j: nat, k: nat, level: nat)
    requires j <= k && level < |cache| && forall i {:trigger Bit(i, level)} :: n + j <= i < n + k ==> Bit(i, level)
    ensures CacheAfter(h, cache, n, Repeat(x, k))[level] == CacheAfter(h, cache, n, Repeat(x, j))[level]
    decreases k
  {
    if j < k {
      KeptWrite(h, cache, n, x, k - 1, level);
      KeptWrites(h, cache, n, x, j, k - 1, level);
    }
  }

  /** Past the lowest bit of n, the entry at that bit has been overwritten by a node to the right of n. */
  lemma LastWrite(h: Hasher, leaves: seq<Hash>, cache: seq<Hash>, x: Hash, k: nat) returns (j: nat)
    requires leaves != [] && CacheOk(h, leaves, cache) && |leaves| + k <= Pow2(|cache|)
    requires k > LowBit(|leaves|) && LowLevel(|leaves|) < |cache|
    ensures LowBit(|leaves|) <= j < k
    ensures var level := LowLevel(|leaves|);
            CacheAfter(h, cache, |leaves|, Repeat(x, k))[level]
            == Node(h, leaves + Repeat(x, j + 1), level, Shift(|leaves| + j, level))
  {
    var n := |leaves|;
    j := LastClear(n, k);
    KeptWrites(h, cache, n, x, j + 1, k, LowLevel(n));
    FreshWrite(h, leaves, cache, x, j, LowLevel(n));
  }

  /** The subtree left of the next index at its lowest bit starts at an index already taken. */
  lemma LeftStart(n: nat, level: nat)
    requires n > 0 && level == LowLevel(n)
    ensures Bit(n, level) && FirstUnder(Shift(n, level) - 1, level) < n
  {
    LowLevelIsLowest(n, level);
    var pos := Shift(n, level) - 1;
    FirstUnderIsFirst(pos, level, n);
    ShiftMonotoneStrict(FirstUnder(pos, level), n, level);
  }

  /** A cached node that starts with another leaf is not the one needed. */
  lemma OtherStartIsWrong(h: Hasher, leaves: seq<Hash>, all: seq<Hash>, cache: seq<Hash>, level: nat, pos: nat)
    requires Injective(h) && level < |cache| && Bit(|leaves|, level) && cache[level] == Node(h, all, level, pos)
    requires LeafAt(all, FirstUnder(pos, level)) != LeafAt(leaves, FirstUnder(Shift(|leaves|, level) - 1, level))
    ensures !CacheOk(h, leaves, cache)
  {
    if cache[level] == LeftOfPath(h, leaves, level) {
      NodeDeterminesFirstLeaf(h, all, leaves, level, pos, Shift(|leaves|, level) - 1);
    }
  }

  /** More than LowBit(n) rolled-back leaves: some batch of that length leaves the cache wrong. */
  lemma LongBatchHarms(h: Hasher, leaves: seq<Hash>, cache: seq<Hash>, k: nat) returns (xs: seq<Hash>)
    requires Injective(h) && leaves != [] && CacheOk(h, leaves, cache)
    requires |leaves| + k <= Pow2(|cache|) && |leaves| < Pow2(|cache|) && k > LowBit(|leaves|)
    ensures |xs| == k && !CacheOk(h, leaves, CacheAfter(h, cache, |leaves|, xs))
  {
    var n := |leaves|;
    var level := LowLevel(n);
    LowLevelFits(n, |cache|);
    LeftStart(n, level);
    var x := leaves[FirstUnder(Shift(n, level) - 1, level)] + 1;
    xs := Repeat(x, k);
    var j := LastWrite(h, leaves, cache, x, k);
    RightOfNext(n, j, level);
    OtherStartIsWrong(h, leaves, leaves + Repeat(x, j + 1), CacheAfter(h, cache, n, xs), level, Shift(n + j, level));
  }

  /** The node that index n + j lies under starts at n or later, once j has reached the lowest bit of n. */
  lemma RightOfNext(n: nat, j: nat, level: nat)
    requires n > 0 && level == LowLevel(n) && j >= LowBit(n)
    ensures n <= FirstUnder(Shift(n + j, level), level) <= n + j
  {
    CarryAtLowBit(n);
    ShiftMonotone(n + LowBit(n), n + j, level);
    FirstUnderIsFirst(Shift(n + j, level), level, n);
    FirstUnderIsFirst(Shift(n + j, level), level, n + j);
  }

  /**
   After rolling back k leaves put on top of n committed ones, every next leaf
   gets its right root whatever the rolled-back leaves were, exactly when n is
   zero or k is at most the lowest bit of n.
   */
  lemma RollbackIsHarmlessIff(h: Hasher, leaves: seq<Hash>, cache: seq<Hash>, k: nat)
    requires Injective(h) && CacheOk(h, leaves, cache)
    requires |leaves| + k <= Pow2(|cache|) && |leaves| < Pow2(|cache|)
    ensures (forall xs: seq<Hash>, y: Hash :: |xs| == k ==>
               PutRoot(h, CacheAfter(h, cache, |leaves|, xs), |leaves|, y) == Root(h, leaves + [y], |cache|))
            <==> leaves == [] || k <= LowBit(|leaves|)
  {
    if leaves == [] || k <= LowBit(|leaves|) {
      forall xs: seq<Hash>, y: Hash | |xs| == k
        ensures PutRoot(h, CacheAfter(h, cache, |leaves|, xs), |leaves|, y) == Root(h, leaves + [y], |cache|)
      {
        ShortBatchIsHarmless(h, leaves, cache, xs);
        PutIsRight(h, leaves, CacheAfter(h, cache, |leaves|, xs), y);
      }
    } else {
      var xs := LongBatchHarms(h, leaves, cache, k);
      RootIsRightIffCacheIs(h, leaves, cache, CacheAfter(h, cache, |leaves|, xs), 0);
    }
  }
}
