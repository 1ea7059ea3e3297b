/**
 Rows kept in block order, each naming an exit root: the verified batches of a
 network, or the leaves of the L1 info tree. Both are only ever read by looking
 up the first row at or after a block.
 */
module ExitRootTable {
  import opened Prelude

  /** An L1 block number; it always has a successor. */
  type BlockNum = x: int | 0 <= x < TWO_64 - 1

  /** A row; the payload is a verified batch's rollup exit root or a leaf's index in the L1 info tree. */
  datatype Row = Row(blockNum: BlockNum, exitRoot: Hash, payload: int)

  /** The rows in (block, position) order, and the indices of the exit roots the bridge's tree knows. */
  datatype Table = Table(rows: seq<Row>, rootIndex: map<Hash, nat>) {

    predicate Known(i: nat)
      requires i < |rows|
    {
      rows[i].exitRoot in rootIndex
    }

    function Index(i: nat): nat
      requires i < |rows| && Known(i)
    {
      rootIndex[rows[i].exitRoot]
    }

    ghost predicate Sorted() {
      forall i, j :: 0 <= i < j < |rows| ==> rows[i].blockNum <= rows[j].blockNum
    }

    /** The exit tree only grows, so later rows settle it at the same or a later index. */
    ghost predicate Monotone() {
      forall i, j :: 0 <= i < j < |rows| && Known(i) && Known(j) ==> Index(i) <= Index(j)
    }

    ghost predicate StrictlyMonotone() {
      forall i, j :: 0 <= i < j < |rows| && Known(i) && Known(j) ==> Index(i) < Index(j)
    }

    /** The lookups by block only ever return the first row of a block. */
    predicate FirstOfBlock(i: nat)
      requires i < |rows|
    {
      forall k :: 0 <= k < i ==> rows[k].blockNum < rows[i].blockNum
    }

    /** Where the lookup "first row at or after block" lands, or |rows| when it finds nothing. */
    function At(block: int): nat {
      AtFrom(block, 0)
    }

    function AtFrom(block: int, i: nat): nat
      requires i <= |rows|
      decreases |rows| - i
    {
      if i == |rows| || rows[i].blockNum >= block then i else AtFrom(block, i + 1)
    }

    lemma {:induction false} AtFromIsFirst(block: int, i: nat)
      requires i <= |rows|
      ensures i <= AtFrom(block, i) <= |rows|
      ensures AtFrom(block, i) < |rows| ==> rows[AtFrom(block, i)].blockNum >= block
      ensures forall k :: i <= k < AtFrom(block, i) ==> rows[k].blockNum < block
      decreases |rows| - i
    {
      if i < |rows| && rows[i].blockNum < block { AtFromIsFirst(block, i + 1); }
    }

    lemma AtIsFirst(block: int)
      requires Sorted()
      ensures At(block) <= |rows|
      ensures At(block) < |rows| ==> rows[At(block)].blockNum >= block && FirstOfBlock(At(block))
      ensures forall k :: 0 <= k < At(block) ==> rows[k].blockNum < block
    {
      AtFromIsFirst(block, 0);
    }

    /** A row the lookups can return, whose root is known and covers the deposit. */
    predicate Covers(i: nat, deposit: nat)
      requires i < |rows|
    {
      FirstOfBlock(i) && Known(i) && Index(i) >= deposit
    }

    /** What the linear scan looks for: the first covering row from i on. */
    function FirstCovering(i: nat, deposit: nat): Option<nat>
      requires i <= |rows|
      decreases |rows| - i
    {
      if i == |rows| then None
      else if Covers(i, deposit) then Some(i)
      else FirstCovering(i + 1, deposit)
    }

    lemma {:induction false} FirstCoveringIsFirst(i: nat, deposit: nat)
      requires i <= |rows|
      ensures var r := FirstCovering(i, deposit);
              if r.Some? then i <= r.value < |rows| && Covers(r.value, deposit)
                              && forall k :: i <= k < r.value ==> !Covers(k, deposit)
              else forall k :: i <= k < |rows| ==> !Covers(k, deposit)
      decreases |rows| - i
    {
      if i < |rows| && !Covers(i, deposit) { FirstCoveringIsFirst(i + 1, deposit); }
    }
  }
}
