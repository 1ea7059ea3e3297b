/**
 What a rolled-back transaction, truncations included, leaves in the exit
 tree's cache. The tables come back and every accepted put takes the cached
 index back by one, but the cached left siblings are those of the last leaves
 the transaction worked on.
 */
module TransactionRollback {
  import opened Prelude
  import opened MerkleTree
  import opened MerkleRollback
  import opened ExitTree

  /**
   The tree in an open transaction: its leaves, its cache, how many puts it has
   accepted, and the leaves the cached siblings were last computed from.
   */
  datatype Work = Work(leaves: seq<Hash>, cache: Cache, puts: nat, seen: seq<Hash>)

  function Begin(leaves: seq<Hash>, k: Cache): Work {
    Work(leaves, k, 0, leaves)
  }

  /** A put at the next index. */
  function Append(h: Hasher, w: Work, leaf: Hash): Work {
    var n := |w.leaves|;
    var left := PutCache(h, CacheFor(h, w.cache, w.leaves, n).left, n, leaf);
    Work(w.leaves + [leaf], Cache(n, left), w.puts + 1, w.leaves + [leaf])
  }

  /** A put at an index neither the tree nor the cache expects rebuilds the cache and is refused. */
  function Refuse(h: Hasher, w: Work): Work {
    w.(cache := Rebuilt(h, w.leaves, |w.cache.left|), seen := w.leaves)
  }

  function Truncate(w: Work, m: nat): Work {
    if m < |w.leaves| then w.(leaves := w.leaves[..m]) else w
  }

  function RolledBack(w: Work): Cache {
    w.cache.(lastIndex := w.cache.lastIndex - w.puts)
  }

  // ----- what every step of a transaction keeps -----

  /** The siblings belong to the leaves last seen, whose start is that of the leaves before the transaction. */
  ghost predicate FromSeen(h: Hasher, saved: seq<Hash>, w: Work) {
    && w.cache.lastIndex + 1 == |w.seen| <= Pow2(|w.cache.left|)
    && FullLeft(h, w.seen, w.cache.left)
    && w.leaves <= w.seen
    && SameStart(saved, w.seen, |w.seen| - w.puts)
  }

  ghost predicate SameStart(a: seq<Hash>, b: seq<Hash>, n: int) {
    n <= |a| && n <= |b| && forall i :: 0 <= i < n ==> a[i] == b[i]
  }

  lemma PrefixesShareStart(saved: seq<Hash>, seen: seq<Hash>, leaves: seq<Hash>, n: int, m: int)
    requires SameStart(saved, seen, n) && leaves <= seen && m <= n && m <= |leaves|
    ensures SameStart(saved, leaves, m)
  {
  }

  /** Either nothing was put and the cache fits the leaves before the transaction, or it is that of the leaves last seen. */
  ghost predicate Within(h: Hasher, saved: seq<Hash>, height: nat, w: Work) {
    && |w.cache.left| == height
    && |w.leaves| <= Pow2(height)
    && ((w.puts == 0 && w.leaves <= saved && CacheFits(h, saved, w.cache)) || FromSeen(h, saved, w))
  }

  lemma BeginIsWithin(h: Hasher, saved: seq<Hash>, k: Cache)
    requires |saved| <= Pow2(|k.left|) && CacheFits(h, saved, k)
    ensures Within(h, saved, |k.left|, Begin(saved, k))
  {
  }

  /** Inside a transaction the tree stays fit to put the next leaf. */
  lemma WithinFits(h: Hasher, saved: seq<Hash>, height: nat, w: Work)
    requires Within(h, saved, height, w)
    ensures CacheFits(h, w.leaves, w.cache)
  {
    if FromSeen(h, saved, w) {
      if |w.seen| <= |w.leaves| {
        assert w.leaves == w.seen && w.leaves[..|w.seen|] == w.seen;
        RebuiltCache(h, w.seen, w.cache.left);
      }
    } else {
      assert w.leaves == saved[..|w.leaves|];
      TruncationFits(h, saved, w.cache, |w.leaves|);
    }
  }

  lemma AppendStaysWithin(h: Hasher, saved: seq<Hash>, height: nat, w: Work, leaf: Hash)
    requires Within(h, saved, height, w) && |w.leaves| < Pow2(height)
    ensures Within(h, saved, height, Append(h, w, leaf))
    ensures CacheOk(h, w.leaves, CacheFor(h, w.cache, w.leaves, |w.leaves|).left)
  {
    WithinFits(h, saved, height, w);
    CacheForFits(h, w.cache, w.leaves, |w.leaves|);
    PutFills(h, w.leaves, CacheFor(h, w.cache, w.leaves, |w.leaves|).left, leaf);
    var w' := Append(h, w, leaf);
    var n := |w.leaves| - w.puts;
    LeavesShareStart(h, saved, height, w);
    forall i | 0 <= i < n ensures saved[i] == w'.seen[i] { assert w'.seen[i] == w.leaves[i]; }
    assert FromSeen(h, saved, w');
  }

  lemma LeavesShareStart(h: Hasher, saved: seq<Hash>, height: nat, w: Work)
    requires Within(h, saved, height, w)
    ensures SameStart(saved, w.leaves, |w.leaves| - w.puts)
  {
    if FromSeen(h, saved, w) {
      PrefixesShareStart(saved, w.seen, w.leaves, |w.seen| - w.puts, |w.leaves| - w.puts);
    }
  }

  lemma RefuseStaysWithin(h: Hasher, saved: seq<Hash>, height: nat, w: Work)
    requires Within(h, saved, height, w)
    ensures Within(h, saved, height, Refuse(h, w))
  {
    LeavesShareStart(h, saved, height, w);
    assert FromSeen(h, saved, Refuse(h, w));
  }

  lemma TruncateStaysWithin(h: Hasher, saved: seq<Hash>, height: nat, w: Work, m: nat)
    requires Within(h, saved, height, w)
    ensures Within(h, saved, height, Truncate(w, m))
  {
    var w' := Truncate(w, m);
    assert w'.leaves <= w.leaves;
    if FromSeen(h, saved, w) { assert w'.leaves <= w.seen && FromSeen(h, saved, w'); }
  }

  // ----- the rollback -----

  /** The puts that can be taken back: none, all the way to the start, or at most the lowest bit of what is left. */
  predicate Spared(puts: nat, left: int) {
    puts == 0 || left <= 0 || puts <= LowBit(left)
  }

  predicate NoRepeats(leaves: seq<Hash>) {
    forall i, j :: 0 <= i < j < |leaves| ==> leaves[i] != leaves[j]
  }

  /** A node left of index m depends only on the first m leaves. */
  lemma {:induction false} NodeOfPrefix(h: Hasher, leaves: seq<Hash>, m: nat, level: nat, pos: nat)
    requires m <= |leaves| && pos < Shift(m, level)
    ensures Node(h, leaves, level, pos) == Node(h, leaves[..m], level, pos)
  {
    if level > 0 {
      NodeOfPrefix(h, leaves, m, level - 1, 2 * pos);
      NodeOfPrefix(h, leaves, m, level - 1, 2 * pos + 1);
    }
  }

  /** Few puts: every entry the shortened sequence needs is still there. */
  lemma EntryIsSpared(h: Hasher, seen: seq<Hash>, left: seq<Hash>, puts: nat, level: nat)
    requires FullLeft(h, seen, left) && 0 < puts < |seen| && puts <= LowBit(|seen| - puts)
    requires level < |left| && Bit(|seen| - puts, level)
    ensures left[level] == LeftOfPath(h, seen[..|seen| - puts], level)
  {
    var n := |seen| - puts;
    LowLevelIsLowest(n, level);
    NoCarry(n, puts - 1, level);
    NodeOfPrefix(h, seen, n, level, Shift(n, level) - 1);
  }

  lemma SparedFits(h: Hasher, seen: seq<Hash>, left: seq<Hash>, puts: nat)
    requires FullLeft(h, seen, left) && puts <= |seen| && Spared(puts, |seen| - puts)
    ensures CacheOk(h, seen[..|seen| - puts], left)
  {
    var rest := seen[..|seen| - puts];
    if puts == 0 {
      assert rest == seen;
      RebuiltCache(h, seen, left);
    } else {
      forall level {:trigger left[level]} | 0 <= level < |left| && Bit(|rest|, level)
        ensures left[level] == LeftOfPath(h, rest, level)
      {
        if rest == [] {
          ShiftOfZero(level);
        } else {
          EntryIsSpared(h, seen, left, puts, level);
        }
      }
    }
  }

  /** Too many puts: the entry at the lowest bit is a node further right, with other leaves beneath it. */
  lemma UnsparedShows(h: Hasher, seen: seq<Hash>, left: seq<Hash>, puts: nat)
    requires Injective(h) && FullLeft(h, seen, left) && |seen| <= Pow2(|left|) && NoRepeats(seen)
    requires puts <= |seen| && !Spared(puts, |seen| - puts)
    ensures !CacheOk(h, seen[..|seen| - puts], left)
  {
    var n := |seen| - puts;
    var level := LowLevel(n);
    LowLevelFits(n, |left|);
    LowLevelIsLowest(n, level);
    var wrong, right := 2 * Shift(|seen| - 1, level + 1), Shift(n, level) - 1;
    OverwrittenByLater(n, puts, level);
    FirstLeavesDiffer(seen, level, wrong, right);
    NodeOfPrefix(h, seen, n, level, right);
    if Node(h, seen, level, wrong) == Node(h, seen, level, right) {
      NodeDeterminesFirstLeaf(h, seen, seen, level, wrong, right);
    }
    assert left[level] == Node(h, seen, level, wrong);
  }

  /** At the lowest bit of n, more puts than that bit end under a later position. */
  lemma OverwrittenByLater(n: nat, puts: nat, level: nat)
    requires n > 0 && puts > LowBit(n) && level == LowLevel(n)
    ensures Shift(n, level) - 1 < 2 * Shift(n + puts - 1, level + 1) <= Shift(n + puts - 1, level)
  {
    LowLevelIsLowest(n, level);
    CarryAtLowBit(n);
    ShiftMonotone(n + LowBit(n), n + puts - 1, level);
  }

  lemma FirstLeavesDiffer(seen: seq<Hash>, level: nat, later: nat, earlier: nat)
    requires NoRepeats(seen) && seen != [] && earlier < later <= Shift(|seen| - 1, level)
    ensures LeafAt(seen, FirstUnder(later, level)) != LeafAt(seen, FirstUnder(earlier, level))
  {
    FirstUnderFits(later, level, |seen| - 1);
    FirstUnderIsFirst(earlier, level, 0);
    FirstUnderIsFirst(later, level, FirstUnder(earlier, level));
  }

  lemma FirstUnderFits(pos: nat, level: nat, index: nat)
    requires pos <= Shift(index, level)
    ensures FirstUnder(pos, level) <= index
  {
    FirstUnderIsFirst(pos, level, index);
    if pos < Shift(index, level) { ShiftMonotoneStrict(FirstUnder(pos, level), index, level); }
  }

  /**
   A transaction with any puts and truncations, rolled back: the cache fits the
   leaves again if the puts are few enough for what they leave, and with
   different leaves only then.
   */
  lemma RollbackFitsIff(h: Hasher, saved: seq<Hash>, height: nat, w: Work)
    requires Injective(h) && Within(h, saved, height, w)
    ensures Spared(w.puts, w.cache.lastIndex + 1 - w.puts) ==> CacheFits(h, saved, RolledBack(w))
    ensures NoRepeats(w.seen) ==>
              (CacheFits(h, saved, RolledBack(w)) <==> Spared(w.puts, w.cache.lastIndex + 1 - w.puts))
  {
    var n := w.cache.lastIndex + 1 - w.puts;
    if FromSeen(h, saved, w) && 0 <= n {
      assert w.seen[..n] == saved[..n];
      if Spared(w.puts, n) {
        SparedFits(h, w.seen, w.cache.left, w.puts);
      } else if NoRepeats(w.seen) {
        UnsparedShows(h, w.seen, w.cache.left, w.puts);
      }
    }
  }

  // ----- a truncation, then puts -----

  function AppendAll(h: Hasher, w: Work, xs: seq<Hash>): Work
    decreases |xs|
  {
    if xs == [] then w else AppendAll(h, Append(h, w, xs[0]), xs[1..])
  }

  /** Only the first put may rebuild the cache. */
  lemma {:induction false} AppendAllEffect(h: Hasher, w: Work, xs: seq<Hash>)
    requires xs != []
    ensures var n := |w.leaves|;
            AppendAll(h, w, xs) == Work(w.leaves + xs, Cache(n + |xs| - 1, CacheAfter(h, CacheFor(h, w.cache, w.leaves, n).left, n, xs)),
                                        w.puts + |xs|, w.leaves + xs)
    decreases |xs|
  {
    var w' := Append(h, w, xs[0]);
    assert w.leaves + [xs[0]] + xs[1..] == w.leaves + xs;
    if |xs| == 1 {
      assert xs[1..] == [] && xs == [xs[0]];
      assert w.leaves + xs == w'.leaves;
    } else {
      AppendAllEffect(h, w', xs[1..]);
    }
  }

  /** Back to m leaves, then the puts, then the rollback. */
  function TruncatedThenPut(h: Hasher, saved: seq<Hash>, k: Cache, m: nat, xs: seq<Hash>): Cache {
    RolledBack(AppendAll(h, Truncate(Begin(saved, k), m), xs))
  }

  lemma TruncatedThenPutFits(h: Hasher, saved: seq<Hash>, k: Cache, m: nat, xs: seq<Hash>)
    requires m <= |saved| <= Pow2(|k.left|) && CacheFits(h, saved, k) && xs != []
    ensures var cache := CacheFor(h, k, saved[..m], m).left;
            && |cache| == |k.left| && CacheOk(h, saved[..m], cache)
            && (CacheFits(h, saved, TruncatedThenPut(h, saved, k, m, xs)) <==> CacheOk(h, saved[..m], CacheAfter(h, cache, m, xs)))
  {
    var w := Truncate(Begin(saved, k), m);
    assert w.leaves == saved[..m] by { assert saved[..|saved|] == saved; }
    TruncationFits(h, saved, k, m);
    CacheForFits(h, k, saved[..m], m);
    AppendAllEffect(h, w, xs);
  }

  /**
   A transaction that truncates to m leaves, puts n more and is rolled back: the
   cache fits the leaves again, whatever was put, exactly when nothing was put,
   m is zero or n is at most the lowest bit of m.
   */
  lemma TruncateThenPutIsHarmlessIff(h: Hasher, saved: seq<Hash>, k: Cache, m: nat, n: nat)
    requires Injective(h) && m <= |saved| <= Pow2(|k.left|) && CacheFits(h, saved, k)
    requires m < Pow2(|k.left|) && m + n <= Pow2(|k.left|)
    ensures (forall xs: seq<Hash> :: |xs| == n ==> CacheFits(h, saved, TruncatedThenPut(h, saved, k, m, xs)))
            <==> n == 0 || m == 0 || n <= LowBit(m)
  {
    if n == 0 {
      forall xs: seq<Hash> | |xs| == n ensures CacheFits(h, saved, TruncatedThenPut(h, saved, k, m, xs)) {
        assert xs == [];
      }
    } else if m == 0 || n <= LowBit(m) {
      forall xs: seq<Hash> | |xs| == n ensures CacheFits(h, saved, TruncatedThenPut(h, saved, k, m, xs)) {
        TruncatedThenPutFits(h, saved, k, m, xs);
        ShortBatchIsHarmless(h, saved[..m], CacheFor(h, k, saved[..m], m).left, xs);
      }
    } else {
      TruncatedThenPutFits(h, saved, k, m, [0]);
      var xs := LongBatchHarms(h, saved[..m], CacheFor(h, k, saved[..m], m).left, n);
      TruncatedThenPutFits(h, saved, k, m, xs);
    }
  }
}
