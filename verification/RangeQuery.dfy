/** Queries over block ranges, cut into chunks the node accepts. */
module RangeQuery {
  import opened Prelude

  datatype BlockRange = BlockRange(from: int, to: int)

  // ----- forward, combining the chunks' results -----

  /** Querying a range is querying two adjacent parts and combining the results. */
  ghost predicate Splits<T(!new)>(data: BlockRange -> T, combine: (T, T) -> T) {
    forall a: int, m: int, b: int :: a <= m < b ==> data(BlockRange(a, b)) == combine(data(BlockRange(a, m)), data(BlockRange(m + 1, b)))
  }

  ghost predicate LeftUnit<T(!new)>(combine: (T, T) -> T, empty: T) {
    forall x: T :: combine(empty, x) == x
  }

  /** Where a chunk ends. */
  function ChunkEnd(from: int, to: int, maxRange: int): int {
    Min(from + maxRange - 1, to)
  }

  /** Whether some chunk's query fails, for chunks counted from `from`. */
  predicate SomeChunkFails(fails: BlockRange -> bool, from: int, to: int, maxRange: int)
    requires maxRange >= 1
    decreases 1 - from + to
  {
    from <= to && (fails(BlockRange(from, ChunkEnd(from, to, maxRange)))
                   || SomeChunkFails(fails, ChunkEnd(from, to, maxRange) + 1, to, maxRange))
  }

  /**
   Chunking changes nothing: if no chunk's query fails, the result is that of
   one query over the whole range. None is an error, returned exactly for a zero
   chunk size or a failing chunk.
   */
  method ChunkedRangeQuery<T(!new)>(from: uint64, to: uint64, maxRange: uint64, data: BlockRange -> T,
                                    fails: BlockRange -> bool, combine: (T, T) -> T, empty: T)
    returns (r: Option<T>)
    requires Splits(data, combine) && LeftUnit(combine, empty) && to + maxRange < TWO_64
    ensures r.None? <==> maxRange == 0 || SomeChunkFails(fails, from, to, maxRange)
    ensures r.Some? ==> r.value == if from <= to then data(BlockRange(from, to)) else empty
  {
    if maxRange == 0 { return None; }
    var all := empty;
    var current: uint64 := from;
    while current <= to
      invariant from <= current <= Max(from, to + 1)
      invariant all == if from < current then data(BlockRange(from, current - 1)) else empty
      invariant SomeChunkFails(fails, from, to, maxRange) == SomeChunkFails(fails, current, to, maxRange)
      decreases TWO_64 - current
    {
      var currentTo: uint64 := Min(current + maxRange - 1, to);
      if fails(BlockRange(current, currentTo)) { return None; }
      all := combine(all, data(BlockRange(current, currentTo)));
      if from < current {
        assert data(BlockRange(from, currentTo)) ==
               combine(data(BlockRange(from, current - 1)), data(BlockRange(current - 1 + 1, currentTo)));
      }
      current := currentTo + 1;
    }
    return Some(all);
  }

  // ----- backward, looking for the latest match -----

  /** A claim log and whether it is the claim looked for. */
  datatype Log = Log(block: uint64, matches: bool)

  ghost predicate Ascending(logs: seq<Log>) {
    forall i, j :: 0 <= i < j < |logs| ==> logs[i].block <= logs[j].block
  }

  function InRange(logs: seq<Log>, from: int, to: int): seq<Log> {
    if logs == [] then []
    else InRange(logs[..|logs| - 1], from, to)
         + if from <= logs[|logs| - 1].block <= to then [logs[|logs| - 1]] else []
  }

  /** The block of the last match. */
  function LastMatch(logs: seq<Log>): Option<uint64> {
    if logs == [] then None
    else if logs[|logs| - 1].matches then Some(logs[|logs| - 1].block)
    else LastMatch(logs[..|logs| - 1])
  }

  method ScanRange(logs: seq<Log>, from: uint64, to: uint64) returns (r: Option<uint64>)
    ensures r == LastMatch(InRange(logs, from, to))
  {
    var found := InRange(logs, from, to);
    var i := |found|;
    assert found[..i] == found;
    while i > 0
      invariant i <= |found| && LastMatch(found) == LastMatch(found[..i])
    {
      i := i - 1;
      assert found[..i + 1][..i] == found[..i];
      if found[i].matches { return Some(found[i].block); }
    }
    return None;
  }

  lemma {:induction false} LastMatchSplits(a: seq<Log>, b: seq<Log>)
    ensures LastMatch(a + b) == if LastMatch(b).Some? then LastMatch(b) else LastMatch(a)
    decreases |b|
  {
    if b == [] {
      assert a + b == a;
    } else {
      assert (a + b)[..|a + b| - 1] == a + b[..|b| - 1];
      LastMatchSplits(a, b[..|b| - 1]);
    }
  }

  lemma {:induction false} RangeSplits(logs: seq<Log>, from: int, cut: int, to: int)
    requires Ascending(logs) && from <= cut <= to + 1
    ensures InRange(logs, from, to) == InRange(logs, from, cut - 1) + InRange(logs, cut, to)
    decreases |logs|
  {
    if logs != [] {
      var before, last := logs[..|logs| - 1], logs[|logs| - 1];
      RangeSplits(before, from, cut, to);
      if last.block < cut {
        NothingAbove(before, cut, to);
      }
    }
  }

  lemma {:induction false} NothingAbove(logs: seq<Log>, cut: int, to: int)
    requires forall i :: 0 <= i < |logs| ==> logs[i].block < cut
    ensures InRange(logs, cut, to) == []
    decreases |logs|
  {
    if logs != [] { NothingAbove(logs[..|logs| - 1], cut, to); }
  }

  /** The block is the highest matching one of the range, or there is none. */
  ghost predicate Highest(logs: seq<Log>, from: int, to: int, m: Option<uint64>) {
    match m
    case None => forall i :: 0 <= i < |logs| && from <= logs[i].block <= to ==> !logs[i].matches
    case Some(b) => (exists i :: 0 <= i < |logs| && logs[i] == Log(b, true)) && from <= b <= to
                    && forall i :: 0 <= i < |logs| && from <= logs[i].block <= to && logs[i].matches ==> logs[i].block <= b
  }

  /** A log that is outside the range or no match changes nothing. */
  lemma HighestStays(before: seq<Log>, last: Log, from: int, to: int, m: Option<uint64>)
    requires Highest(before, from, to, m) && !(from <= last.block <= to && last.matches)
    ensures Highest(before + [last], from, to, m)
  {
    var logs := before + [last];
    if m.Some? {
      var i :| 0 <= i < |before| && before[i] == Log(m.value, true);
      assert logs[i] == Log(m.value, true);
    }
    forall i | 0 <= i < |logs| && from <= logs[i].block <= to && logs[i].matches ensures i < |before| && logs[i] == before[i] {}
  }

  /** A match in the range is the highest so far. */
  lemma HighestMoves(before: seq<Log>, last: Log, from: int, to: int)
    requires Ascending(before + [last]) && from <= last.block <= to && last.matches
    ensures Highest(before + [last], from, to, Some(last.block))
  {
    var logs := before + [last];
    assert logs[|before|] == last;
    forall i | 0 <= i < |logs| ensures logs[i].block <= last.block {}
  }

  lemma LastMatchSnoc(a: seq<Log>, x: Log)
    ensures LastMatch(a + [x]) == if x.matches then Some(x.block) else LastMatch(a)
  {
    assert (a + [x])[..|a|] == a;
  }

  lemma InRangeSnoc(a: seq<Log>, x: Log, from: int, to: int)
    ensures InRange(a + [x], from, to) == InRange(a, from, to) + if from <= x.block <= to then [x] else []
  {
    assert (a + [x])[..|a|] == a;
  }

  lemma LastMatchOfMore(before: seq<Log>, last: Log, from: int, to: int)
    ensures LastMatch(InRange(before + [last], from, to))
            == if from <= last.block <= to && last.matches then Some(last.block) else LastMatch(InRange(before, from, to))
  {
    var rest := InRange(before, from, to);
    InRangeSnoc(before, last, from, to);
    if from <= last.block <= to {
      LastMatchSnoc(rest, last);
    } else {
      assert rest + [] == rest;
    }
  }

  lemma HighestOfMore(before: seq<Log>, last: Log, from: int, to: int, m: Option<uint64>)
    requires Ascending(before + [last]) && Highest(before, from, to, m)
    ensures Highest(before + [last], from, to, if from <= last.block <= to && last.matches then Some(last.block) else m)
  {
    if from <= last.block <= to && last.matches {
      HighestMoves(before, last, from, to);
    } else {
      HighestStays(before, last, from, to, m);
    }
  }

  /** The last match is in the highest matching block of the range. */
  lemma {:induction false} LastMatchIsHighest(logs: seq<Log>, from: int, to: int)
    requires Ascending(logs)
    ensures Highest(logs, from, to, LastMatch(InRange(logs, from, to)))
    decreases |logs|
  {
    if logs != [] {
      var before, last := logs[..|logs| - 1], logs[|logs| - 1];
      assert before + [last] == logs;
      LastMatchIsHighest(before, from, to);
      LastMatchOfMore(before, last, from, to);
      HighestOfMore(before, last, from, to, LastMatch(InRange(before, from, to)));
    }
  }

  datatype Outcome = Found(block: uint64) | NotFound | Failed

  function ToOutcome(m: Option<uint64>): Outcome {
    if m.Some? then Found(m.value) else NotFound
  }

  /** The node: which ranges it refuses, and the chunk size its refusal of the full range names, if any. */
  datatype Node = Node(refuses: BlockRange -> bool, chunkSize: Option<uint64>)

  /** Where the chunk that ends at a block starts. */
  function ChunkStart(current: uint64, size: uint64): uint64
    requires size >= 1
  {
    if current >= size then current - size + 1 else 0
  }

  /** Going down in chunks from a block, one is refused before any has a match. */
  predicate RefusedBeforeMatch(logs: seq<Log>, refuses: BlockRange -> bool, size: uint64, current: uint64)
    requires size >= 1
    decreases current
  {
    var from := ChunkStart(current, size);
    refuses(BlockRange(from, current)) ||
    (from > 0 && LastMatch(InRange(logs, from, current)).None? && RefusedBeforeMatch(logs, refuses, size, from - 1))
  }

  /** If no range within the chunk size is refused, none is refused on the way. */
  lemma {:induction false} ShortRangesAreEnough(logs: seq<Log>, refuses: BlockRange -> bool, size: uint64, current: uint64)
    requires size >= 1
    requires forall r: BlockRange :: 0 <= r.from <= r.to < r.from + size ==> !refuses(r)
    ensures !RefusedBeforeMatch(logs, refuses, size, current)
    decreases current
  {
    var from := ChunkStart(current, size);
    assert !refuses(BlockRange(from, current));
    if from > 0 { ShortRangesAreEnough(logs, refuses, size, from - 1); }
  }

  /** What one chunk settles: a match in it is the latest, and without one the blocks below decide. */
  lemma ChunkDecides(logs: seq<Log>, size: uint64, current: uint64)
    requires Ascending(logs) && size >= 1
    ensures var from := ChunkStart(current, size);
            var m := LastMatch(InRange(logs, from, current));
            LastMatch(InRange(logs, 0, current)) ==
            if m.Some? then m else if from == 0 then None else LastMatch(InRange(logs, 0, from - 1))
  {
    var from: int := ChunkStart(current, size);
    RangeSplits(logs, 0, from, current);
    LastMatchSplits(InRange(logs, 0, from - 1), InRange(logs, from, current));
    if from == 0 { NothingBelowZero(logs); }
  }

  /** The backward scan from a block, chunk by chunk. */
  function ScanDown(logs: seq<Log>, refuses: BlockRange -> bool, size: uint64, current: uint64): Outcome
    requires size >= 1
    decreases current
  {
    var from := ChunkStart(current, size);
    var m := LastMatch(InRange(logs, from, current));
    if refuses(BlockRange(from, current)) then Failed
    else if m.Some? then Found(m.value)
    else if from == 0 then NotFound
    else ScanDown(logs, refuses, size, from - 1)
  }

  /** It finds what one scan of everything up to the block finds, unless it is refused first. */
  lemma {:induction false} ScanDownIsExact(logs: seq<Log>, refuses: BlockRange -> bool, size: uint64, current: uint64)
    requires Ascending(logs) && size >= 1
    ensures ScanDown(logs, refuses, size, current) ==
            if RefusedBeforeMatch(logs, refuses, size, current) then Failed else ToOutcome(LastMatch(InRange(logs, 0, current)))
    decreases current
  {
    var from := ChunkStart(current, size);
    ChunkDecides(logs, size, current);
    if from > 0 { ScanDownIsExact(logs, refuses, size, from - 1); }
  }

  method ChunkedScan(logs: seq<Log>, refuses: BlockRange -> bool, chunkSize: uint64, to: uint64) returns (r: Outcome)
    requires chunkSize >= 1
    ensures r == ScanDown(logs, refuses, chunkSize, to)
  {
    var current: uint64 := to;
    while true
      invariant ScanDown(logs, refuses, chunkSize, to) == ScanDown(logs, refuses, chunkSize, current)
      decreases current
    {
      var chunkFrom: uint64 := 0;
      if current >= chunkSize { chunkFrom := current - chunkSize + 1; }
      if refuses(BlockRange(chunkFrom, current)) { return Failed; }
      var m := ScanRange(logs, chunkFrom, current);
      if m.Some? { return Found(m.value); }
      if chunkFrom == 0 { break; }
      current := chunkFrom - 1;
    }
    return NotFound;
  }

  /**
   The latest block with a match: from one scan of the full range or, where the
   node limits ranges, from scanning backwards in chunks of the size it names.
   The answer is that of the full range. It fails exactly when the full range is
   refused and either no chunk size is named or a chunk is refused before any
   has a match.
   */
  method LatestMatch(logs: seq<Log>, to: uint64, node: Node) returns (r: Outcome)
    requires Ascending(logs) && (node.chunkSize.Some? ==> node.chunkSize.value >= 1)
    ensures !r.Failed? ==> r == ToOutcome(LastMatch(InRange(logs, 0, to)))
    ensures r.Failed? <==> node.refuses(BlockRange(0, to)) &&
                           (node.chunkSize.None? || RefusedBeforeMatch(logs, node.refuses, node.chunkSize.value, to))
  {
    if !node.refuses(BlockRange(0, to)) {
      var m := ScanRange(logs, 0, to);
      return ToOutcome(m);
    }
    if node.chunkSize.None? { return Failed; }
    ScanDownIsExact(logs, node.refuses, node.chunkSize.value, to);
    r := ChunkedScan(logs, node.refuses, node.chunkSize.value, to);
  }

  lemma {:induction false} NothingBelowZero(logs: seq<Log>)
    ensures InRange(logs, 0, -1) == []
    decreases |logs|
  {
    if logs != [] { NothingBelowZero(logs[..|logs| - 1]); }
  }
}
