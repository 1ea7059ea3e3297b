/** The finder's polling scan: finalized blocks are processed in chunks, and a chunk that fails is retried later. */
module Scan {
  import opened Prelude

  datatype Chunk = Chunk(from: uint64, to: uint64)

  /** Where the last chunk ends, or the seed when there is none. */
  function End(seed: uint64, chunks: seq<Chunk>): uint64 {
    if chunks == [] then seed else chunks[|chunks| - 1].to
  }

  /** Each chunk starts right after the one before it and is neither empty nor too long. */
  ghost predicate Contiguous(seed: uint64, size: nat, chunks: seq<Chunk>) {
    chunks == [] ||
    var before, last := chunks[..|chunks| - 1], chunks[|chunks| - 1];
    Contiguous(seed, size, before) && last.from == End(seed, before) + 1 && last.from <= last.to < last.from + size
  }

  lemma ContiguousExtends(seed: uint64, size: nat, chunks: seq<Chunk>, next: Chunk)
    requires Contiguous(seed, size, chunks)
    requires next.from == End(seed, chunks) + 1 && next.from <= next.to < next.from + size
    ensures Contiguous(seed, size, chunks + [next]) && End(seed, chunks + [next]) == next.to
  {
    assert (chunks + [next])[..|chunks|] == chunks;
  }

  lemma {:induction false} ChunksAreShort(seed: uint64, size: nat, chunks: seq<Chunk>, i: nat)
    requires Contiguous(seed, size, chunks) && i < |chunks|
    ensures chunks[i].from <= chunks[i].to < chunks[i].from + size
    decreases |chunks|
  {
    if i < |chunks| - 1 { ChunksAreShort(seed, size, chunks[..|chunks| - 1], i); }
  }

  predicate In(block: uint64, chunk: Chunk) {
    chunk.from <= block <= chunk.to
  }

  /** How many chunks hold a block. */
  function Times(block: uint64, chunks: seq<Chunk>): nat {
    if chunks == [] then 0
    else Times(block, chunks[..|chunks| - 1]) + if In(block, chunks[|chunks| - 1]) then 1 else 0
  }

  /** Contiguous chunks hold each block from after the seed to their end exactly once, and no other block. */
  lemma {:induction false} ExactlyOnce(seed: uint64, size: nat, chunks: seq<Chunk>, block: uint64)
    requires Contiguous(seed, size, chunks)
    ensures seed <= End(seed, chunks)
    ensures Times(block, chunks) == if seed < block <= End(seed, chunks) then 1 else 0
    decreases |chunks|
  {
    if chunks != [] {
      var before := chunks[..|chunks| - 1];
      ExactlyOnce(seed, size, before, block);
    }
  }

  /** One tick: the finalized bound, if it could be read, and which chunk queries would succeed. */
  datatype Tick = Tick(upper: Option<uint64>, answers: Chunk -> bool)

  class Scanner {
    const seed: uint64
    const blockChunkSize: uint64
    var lastScannedBlock: uint64
    /** The chunks processed so far, in order. */
    ghost var chunks: seq<Chunk>
    /** The highest finalized bound seen so far. */
    ghost var highest: uint64

    ghost predicate Valid()
      reads this
    {
      && blockChunkSize >= 1
      && Contiguous(seed, blockChunkSize, chunks)
      && End(seed, chunks) == lastScannedBlock <= highest
    }

    constructor (upper: uint64, blockChunkSize: uint64)
      requires blockChunkSize >= 1
      ensures Valid() && seed == upper == highest && this.blockChunkSize == blockChunkSize && chunks == []
    {
      seed, lastScannedBlock, highest, chunks := upper, upper, upper, [];
      this.blockChunkSize := blockChunkSize;
    }

    /**
     Scans up to the bound or to the first chunk that fails. Only chunks whose
     query succeeded are processed, and success means the bound was reached.
     */
    method ScanOnce(tick: Tick) returns (ok: bool)
      requires Valid() && (tick.upper.Some? ==> tick.upper.value + blockChunkSize < TWO_64)
      modifies this
      ensures Valid() && old(chunks) <= chunks
      ensures forall i :: |old(chunks)| <= i < |chunks| ==> tick.answers(chunks[i])
      ensures highest == if tick.upper.Some? then Max(old(highest), tick.upper.value) else old(highest)
      ensures ok ==> tick.upper.Some? && lastScannedBlock == Max(old(lastScannedBlock), tick.upper.value)
      ensures !ok ==> tick.upper.None? || (lastScannedBlock < tick.upper.value &&
                      !tick.answers(Chunk(lastScannedBlock + 1, Min(lastScannedBlock + blockChunkSize, tick.upper.value))))
    {
      if tick.upper.None? { return false; }
      var upper := tick.upper.value;
      highest := Max(highest, upper);
      if upper <= lastScannedBlock { return true; }
      var from: uint64 := lastScannedBlock + 1;
      while from <= upper
        invariant Valid() && from == lastScannedBlock + 1 && lastScannedBlock <= upper
        invariant old(lastScannedBlock) < upper && highest == Max(old(highest), upper)
        invariant old(chunks) <= chunks
        invariant forall i :: |old(chunks)| <= i < |chunks| ==> tick.answers(chunks[i])
        decreases upper - lastScannedBlock
      {
        var to: uint64 := from + blockChunkSize - 1;
        if to > upper { to := upper; }
        if !tick.answers(Chunk(from, to)) { return false; }
        ContiguousExtends(seed, blockChunkSize, chunks, Chunk(from, to));
        chunks := chunks + [Chunk(from, to)];
        lastScannedBlock := to;
        from := to + 1;
      }
      return true;
    }

    /** Any sequence of ticks: whatever failed in between, every block up to the last scanned one is processed once. */
    method Poll(ticks: seq<Tick>)
      requires Valid()
      requires forall i :: 0 <= i < |ticks| && ticks[i].upper.Some? ==> ticks[i].upper.value + blockChunkSize < TWO_64
      modifies this
      ensures Valid() && old(chunks) <= chunks
      ensures forall block: uint64 :: Times(block, chunks) == if seed < block <= lastScannedBlock then 1 else 0
      ensures forall i :: 0 <= i < |chunks| ==> chunks[i].to - chunks[i].from < blockChunkSize
      ensures lastScannedBlock <= highest
      ensures highest == old(highest) || exists i :: 0 <= i < |ticks| && ticks[i].upper == Some(highest)
    {
      for n := 0 to |ticks|
        invariant Valid() && old(chunks) <= chunks
        invariant highest == old(highest) || exists i :: 0 <= i < n && ticks[i].upper == Some(highest)
      {
        var _ := ScanOnce(ticks[n]);
      }
      forall block: uint64 ensures Times(block, chunks) == if seed < block <= lastScannedBlock then 1 else 0 {
        ExactlyOnce(seed, blockChunkSize, chunks, block);
      }
      forall i | 0 <= i < |chunks| ensures chunks[i].to - chunks[i].from < blockChunkSize {
        ChunksAreShort(seed, blockChunkSize, chunks, i);
      }
    }
  }
}
