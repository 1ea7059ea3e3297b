/** Shared vocabulary: optional values, results and machine-word bounds. */
module Prelude {

  datatype Option<+T> = None | Some(value: T)

  type Hash = int

  const TWO_32: int := 0x1_0000_0000
  const TWO_64: int := 0x1_0000_0000_0000_0000

  type uint32 = x: int | 0 <= x < TWO_32

  type uint64 = x: int | 0 <= x < TWO_64

  function Min(a: int, b: int): int {
    if a <= b then a else b
  }

  function Max(a: int, b: int): int {
    if a <= b then b else a
  }

  /** The order of (block, position) pairs. */
  predicate Earlier(blockA: nat, posA: nat, blockB: nat, posB: nat) {
    blockA < blockB || (blockA == blockB && posA < posB)
  }

  /** Two members of a one-element set are the same member. */
  lemma SingletonIsUnique<T>(s: set<T>, x: T, y: T)
    requires |s| == 1 && x in s && y in s
    ensures x == y
  {
    assert |s - {x}| == 0;
  }

  lemma ConcatIsAssociative<T>(a: seq<T>, b: seq<T>, c: seq<T>)
    ensures a + b + c == a + (b + c)
  {
  }

  // ----- filtering a table -----

  function Filter<T>(rows: seq<T>, keep: T -> bool): seq<T> {
    if rows == [] then []
    else (if keep(rows[0]) then [rows[0]] else []) + Filter(rows[1..], keep)
  }

  /** A filter that keeps exactly the first k rows returns exactly those rows. */
  lemma {:induction false} FilterKeepsPrefix<T>(rows: seq<T>, keep: T -> bool, k: nat)
    requires k <= |rows|
    requires forall i :: 0 <= i < k ==> keep(rows[i])
    requires forall i :: k <= i < |rows| ==> !keep(rows[i])
    ensures Filter(rows, keep) == rows[..k]
  {
    if rows != [] {
      if k == 0 {
        FilterKeepsPrefix(rows[1..], keep, 0);
      } else {
        FilterKeepsPrefix(rows[1..], keep, k - 1);
        assert rows[..k] == [rows[0]] + rows[1..][..k - 1];
      }
    }
  }

  /** A filter that drops exactly the first k rows returns exactly the others. */
  lemma {:induction false} FilterKeepsSuffix<T>(rows: seq<T>, keep: T -> bool, k: nat)
    requires k <= |rows|
    requires forall i :: 0 <= i < k ==> !keep(rows[i])
    requires forall i :: k <= i < |rows| ==> keep(rows[i])
    ensures Filter(rows, keep) == rows[k..]
  {
    if rows != [] {
      if k == 0 {
        FilterKeepsSuffix(rows[1..], keep, 0);
      } else {
        FilterKeepsSuffix(rows[1..], keep, k - 1);
        assert rows[k..] == rows[1..][k - 1..];
      }
    }
  }
}
