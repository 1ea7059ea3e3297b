/** Runs that mix blocks and reorgs. */
module BridgeRuns {
  import opened Prelude
  import opened BridgeTables
  import opened BridgeAgreement
  import opened BridgeOrder
  import opened BridgeReorg

  // ----- a reorg keeps table and tree in agreement -----

  /** How many leaves come before the first dropped block; in order, they are a prefix. */
  lemma {:induction false} DroppedLeavesAreLast(tree: seq<Leaf>, first: nat) returns (m: nat)
    requires forall i, j :: 0 <= i < j < |tree| ==> Precedes(tree[i], tree[j])
    ensures m <= |tree|
    ensures forall i :: 0 <= i < |tree| ==> (tree[i].blockNum < first <==> i < m)
    decreases |tree|
  {
    m := 0;
    if tree != [] {
      var last := |tree| - 1;
      m := DroppedLeavesAreLast(tree[..last], first);
      if tree[last].blockNum < first {
        assert forall i :: 0 <= i < last ==> Precedes(tree[i], tree[last]);
        m := |tree|;
      }
    }
  }

  lemma DropAgrees(c: Chain, t: Tables, first: nat)
    requires Good(c, t)
    ensures Agree(c, DropBlocks(t, first))
  {
    var m := DroppedLeavesAreLast(t.tree, first);
    FilterKeepsPrefix(t.tree, (l: Leaf) => l.blockNum < first, m);
    FilterKeepsPrefix(t.bridge, (b: Bridge) => b.blockNum < first, m);
  }

  lemma {:induction false} RestoreRowsAgree(c: Chain, t: Tables, rows: seq<Bridge>, removed: set<nat>)
    requires Agree(c, t) && RestoreRows(c, t, rows, removed).Ok?
    ensures Agree(c, RestoreRows(c, t, rows, removed).value)
    decreases |rows|
  {
    if rows != [] {
      if rows[0].depositCount in removed {
        RestoreRowsAgree(c, t, rows[1..], removed);
      } else {
        var b := rows[0].(source := Live);
        var t1 := InsertBridge(t, b).value;
        var t2 := PutLeaf(t1, b.depositCount, Leaf(c.leafHash(b.leaf), b.blockNum, b.blockPos)).value;
        RestoreRowsAgree(c, t2, rows[1..], removed);
      }
    }
  }

  lemma {:induction false} RestoreAgrees(c: Chain, t: Tables, lets: seq<BackwardLET>, removed: set<nat>)
    requires Agree(c, t) && Restore(c, t, lets, removed).Ok?
    ensures Agree(c, Restore(c, t, lets, removed).value)
    decreases |lets|
  {
    if lets != [] {
      var l := lets[0];
      var rows := ArchiveRows(t.archive, l.newDepositCount, l.previousDepositCount + 1);
      RestoreRowsAgree(c, t, rows, removed);
      var t1 := RestoreRows(c, t, rows, removed).value;
      RestoreAgrees(c, t1.(archive := WithoutRange(t1.archive, l.newDepositCount, l.previousDepositCount)), lets[1..], removed);
    }
  }

  /** A reorg that succeeds leaves table and tree in agreement, undoable or not. */
  lemma ReorgAgrees(c: Chain, t: Tables, first: nat)
    requires Good(c, t) && ApplyReorg(c, t, first).Ok?
    ensures Agree(c, ApplyReorg(c, t, first).value)
  {
    DropAgrees(c, t, first);
    var lets := BackwardFrom(t.backward, first);
    RestoreAgrees(c, DropBlocks(t, first), lets, if lets == [] then {} else ReorgedDepositCounts(t.archive, first));
  }

  // ----- mixed runs -----

  datatype Step = Process(block: Block) | Purge(first: nat)

  /** One call of the syncer; a failed one changes nothing. */
  function ApplyStep(c: Chain, t: Tables, step: Step): Tables {
    var r := match step
      case Process(b) => ApplyBlock(c, t, b)
      case Purge(first) => ApplyReorg(c, t, first);
    if r.Ok? then r.value else t
  }

  function ApplySteps(c: Chain, t: Tables, steps: seq<Step>): Tables
    decreases |steps|
  {
    if steps == [] then t else ApplySteps(c, ApplyStep(c, t, steps[0]), steps[1..])
  }

  /** The tables come from earlier ones by later blocks whose BackwardLETs are undoable. */
  ghost predicate UndoableFrom(c: Chain, t: Tables, first: nat) {
    exists t0, lets :: Since(c, t0, first, t, lets) && Undoable(t0, lets)
  }

  /** Blocks are well formed and reorgs undoable when their turn comes. */
  ghost predicate Regular(c: Chain, t: Tables, steps: seq<Step>)
    decreases |steps|
  {
    steps != [] ==>
      && (match steps[0]
          case Process(b) => WellFormedBlock(c, t, b)
          case Purge(first) => UndoableFrom(c, t, first))
      && Regular(c, ApplyStep(c, t, steps[0]), steps[1..])
  }

  /** The Source column carries no part of the order. */
  lemma GoodUpToSource(c: Chain, t: Tables, t0: Tables)
    requires Good(c, t0) && SameUpToSource(t, t0)
    ensures Good(c, t)
  {
    forall i | 0 <= i < |t.bridge|
      ensures t.bridge[i].depositCount == i && t.bridge[i].leaf == t0.bridge[i].leaf
              && t.bridge[i].blockNum == t0.bridge[i].blockNum && t.bridge[i].blockPos == t0.bridge[i].blockPos
    {
      assert t.bridge[i].(source := Live) == t0.bridge[i].(source := Live);
    }
  }

  lemma StepGood(c: Chain, t: Tables, step: Step)
    requires Good(c, t) && Regular(c, t, [step])
    ensures Good(c, ApplyStep(c, t, step))
  {
    match step
    case Process(b) => if ApplyBlock(c, t, b).Ok? { BlockGood(c, t, b); }
    case Purge(first) =>
      var t0, lets :| Since(c, t0, first, t, lets) && Undoable(t0, lets);
      ReorgUndoes(c, t0, first, t, lets);
      GoodUpToSource(c, ApplyStep(c, t, step), t0);
  }

  /** Over any run of well-formed blocks and undoable reorgs, rows and leaves agree and stay in strictly increasing order. */
  lemma {:induction false} MixedRunGood(c: Chain, t: Tables, steps: seq<Step>)
    requires Good(c, t) && Regular(c, t, steps)
    ensures Good(c, ApplySteps(c, t, steps))
    decreases |steps|
  {
    if steps != [] {
      assert [steps[0]][1..] == [];
      StepGood(c, t, steps[0]);
      MixedRunGood(c, ApplyStep(c, t, steps[0]), steps[1..]);
    }
  }
}
