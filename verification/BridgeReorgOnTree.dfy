/** Reorgs over the exit tree the syncer really has: the rows they restore go through the same cached puts. */
module BridgeReorgOnTree {
  import opened Prelude
  import opened BridgeTables
  import opened BridgeAgreement
  import opened BridgePuts
  import opened MerkleTree
  import opened ExitTree
  import opened TransactionRollback
  import opened BridgeOnTree
  import BridgeOrder
  import BridgeReorg
  import opened BridgeRuns

  function RestoreRowsOnTree(h: Hasher, c: Chain, tx: Tx, rows: seq<Bridge>, removed: set<nat>): Outcome
    decreases |rows|
  {
    if rows == [] then Done(tx)
    else if rows[0].depositCount in removed then RestoreRowsOnTree(h, c, tx, rows[1..], removed)
    else
      var b := rows[0].(source := Live);
      match InsertBridge(tx.tables, b)
      case Fail(why) => Failed(why, tx.work)
      case Ok(t) =>
        var o := PutOnTree(h, tx.(tables := t), b.depositCount, Leaf(c.leafHash(b.leaf), b.blockNum, b.blockPos));
        if o.Done? then RestoreRowsOnTree(h, c, o.tx, rows[1..], removed) else o
  }

  function RestoreOnTree(h: Hasher, c: Chain, tx: Tx, lets: seq<BackwardLET>, removed: set<nat>): Outcome
    decreases |lets|
  {
    if lets == [] then Done(tx)
    else
      var l := lets[0];
      if !FitsUint64(l.previousDepositCount) || !FitsUint64(l.newDepositCount) then Failed(Rejected, tx.work)
      else
        var rows := ArchiveRows(tx.tables.archive, l.newDepositCount, l.previousDepositCount + 1);
        var o := RestoreRowsOnTree(h, c, tx, rows, removed);
        if o.Done? then RestoreOnTree(h, c, o.tx.(tables := Cleared(o.tx.tables, l)), lets[1..], removed) else o
  }

  function ReorgAttempt(h: Hasher, c: Chain, s: State, first: nat): Outcome
    requires s.Running?
  {
    var lets := BackwardFrom(s.tables.backward, first);
    var removed := if lets == [] then {} else ReorgedDepositCounts(s.tables.archive, first);
    RestoreOnTree(h, c, Dropped(s, first), lets, removed)
  }

  /** The blocks are gone, and the tree has lost the rows of theirs; the cache is not told. */
  function Dropped(s: State, first: nat): Tx
    requires s.Running?
  {
    var t := DropBlocks(s.tables, first);
    Tx(t, Begin(Hashes(s.tables.tree), s.cache).(leaves := Hashes(t.tree)))
  }

  /** One Reorg call; a failed one keeps the tables and the halt. */
  function ReorgOnTree(h: Hasher, c: Chain, s: State, first: nat): State {
    if s.Lost? then s
    else
      match Settle(s.tables, ReorgAttempt(h, c, s, first))
      case Lost => Lost
      case Running(t, k, _) => Running(t, k, s.halted && !ReorgAttempt(h, c, s, first).Done?)
  }

  // ----- the tree follows the walk -----

  lemma {:induction false} RestoreRowsFollow(
    h: Hasher, c: Chain, saved: seq<Hash>, height: nat, tx: Tx, rows: seq<Bridge>, removed: set<nat>)
    requires Roots(h, c, height) && InTx(h, saved, height, tx)
    ensures Follows(h, saved, height, RestoreRowsOnTree(h, c, tx, rows, removed),
                    WalkRestoreRows(c, tx.tables, CountOf(tx.work), rows, removed))
    decreases |rows|
  {
    if rows != [] {
      if rows[0].depositCount in removed {
        RestoreRowsFollow(h, c, saved, height, tx, rows[1..], removed);
      } else {
        var b := rows[0].(source := Live);
        if InsertBridge(tx.tables, b).Ok? {
          var tx0 := tx.(tables := InsertBridge(tx.tables, b).value);
          var leaf := Leaf(c.leafHash(b.leaf), b.blockNum, b.blockPos);
          PutFollows(h, saved, height, tx0, b.depositCount, leaf);
          var o := PutOnTree(h, tx0, b.depositCount, leaf);
          if o.Done? { RestoreRowsFollow(h, c, saved, height, o.tx, rows[1..], removed); }
        }
      }
    }
  }

  lemma {:induction false} RestoreFollows(
    h: Hasher, c: Chain, saved: seq<Hash>, height: nat, tx: Tx, lets: seq<BackwardLET>, removed: set<nat>)
    requires Roots(h, c, height) && InTx(h, saved, height, tx)
    ensures Follows(h, saved, height, RestoreOnTree(h, c, tx, lets, removed),
                    WalkRestore(c, tx.tables, CountOf(tx.work), lets, removed))
    decreases |lets|
  {
    if lets != [] && FitsUint64(lets[0].previousDepositCount) && FitsUint64(lets[0].newDepositCount) {
      var l := lets[0];
      var rows := ArchiveRows(tx.tables.archive, l.newDepositCount, l.previousDepositCount + 1);
      RestoreRowsFollow(h, c, saved, height, tx, rows, removed);
      var o := RestoreRowsOnTree(h, c, tx, rows, removed);
      if o.Done? { RestoreFollows(h, c, saved, height, o.tx.(tables := Cleared(o.tx.tables, l)), lets[1..], removed); }
    }
  }

  lemma DroppedIsInTx(h: Hasher, c: Chain, height: nat, s: State, first: nat)
    requires Roots(h, c, height) && Sound(h, c, height, s)
    ensures InTx(h, Hashes(s.tables.tree), height, Dropped(s, first))
  {
    var tree := s.tables.tree;
    forall i, j | 0 <= i < j < |tree| ensures BridgeOrder.Precedes(tree[i], tree[j]) {}
    var m := DroppedLeavesAreLast(tree, first);
    FilterKeepsPrefix(tree, (l: Leaf) => l.blockNum < first, m);
    assert Hashes(tree[..m]) <= Hashes(tree);
    BeginIsWithin(h, Hashes(tree), s.cache);
  }

  /** A reorg on the tree ends as its walk does, and so as the reorg on lists unless a put is unsafe. */
  lemma ReorgFollows(h: Hasher, c: Chain, height: nat, s: State, first: nat)
    requires Roots(h, c, height) && Sound(h, c, height, s)
    ensures var w := WalkReorg(c, s.tables, s.cache.lastIndex, first);
            && Follows(h, Hashes(s.tables.tree), height, ReorgAttempt(h, c, s, first), w)
            && Walks(w, ApplyReorg(c, s.tables, first))
  {
    DroppedIsInTx(h, c, height, s, first);
    var lets := BackwardFrom(s.tables.backward, first);
    var removed := if lets == [] then {} else ReorgedDepositCounts(s.tables.archive, first);
    RestoreFollows(h, c, Hashes(s.tables.tree), height, Dropped(s, first), lets, removed);
    ReorgWalks(c, s.tables, s.cache.lastIndex, first);
  }

  // ----- when the tree stays sound -----

  /** Reorg on the list of leaves: all of it or nothing, and a reorg that succeeds clears the halt. */
  function ReorgSyncer(c: Chain, s: Syncer, first: nat): Syncer {
    match ApplyReorg(c, s.tables, first)
    case Ok(t) => Syncer(t, false)
    case Fail(_) => s
  }

  ghost predicate ReorgStaysSound(h: Hasher, c: Chain, height: nat, s: State, first: nat)
    requires s.Running?
  {
    var s' := ReorgOnTree(h, c, s, first);
    Sound(h, c, height, s') && Syncing(s') == ReorgSyncer(c, Syncing(s), first)
  }

  lemma CommittedReorgIsSound(h: Hasher, c: Chain, height: nat, s: State, first: nat, tx: Tx)
    requires Sound(h, c, height, s) && ReorgAttempt(h, c, s, first) == Done(tx) && Agree(c, tx.tables)
    requires InTx(h, Hashes(s.tables.tree), height, tx) && ApplyReorg(c, s.tables, first) == Ok(tx.tables)
    ensures ReorgStaysSound(h, c, height, s, first)
  {
    WithinFits(h, Hashes(s.tables.tree), height, tx.work);
  }

  lemma ReorgRollbackDecides(h: Hasher, c: Chain, height: nat, s: State, first: nat, o: Outcome)
    requires Sound(h, c, height, s) && o == ReorgAttempt(h, c, s, first) && (o.Failed? || o.Duplicate?)
    requires |o.work.cache.left| == height && ApplyReorg(c, s.tables, first).Fail?
    ensures ReorgStaysSound(h, c, height, s, first) <==> CacheFits(h, Hashes(s.tables.tree), RolledBack(o.work))
  {
  }

  lemma FailedReorgIsSound(h: Hasher, c: Chain, height: nat, s: State, first: nat, o: Outcome)
    requires Injective(h) && Sound(h, c, height, s) && o == ReorgAttempt(h, c, s, first) && (o.Failed? || o.Duplicate?)
    requires Within(h, Hashes(s.tables.tree), height, o.work) && ApplyReorg(c, s.tables, first).Fail?
    ensures FewTakenBack(CountOf(o.work)) ==> ReorgStaysSound(h, c, height, s, first)
    ensures NoRepeats(o.work.seen) ==> (ReorgStaysSound(h, c, height, s, first) <==> FewTakenBack(CountOf(o.work)))
  {
    ReorgRollbackDecides(h, c, height, s, first, o);
    RollbackFitsIff(h, Hashes(s.tables.tree), height, o.work);
  }

  lemma ReorgLedgerFollows(h: Hasher, c: Chain, height: nat, s: State, first: nat, saved: seq<Hash>)
    requires s.Running?
    requires var w := WalkReorg(c, s.tables, s.cache.lastIndex, first);
             !w.Unsafe? && Follows(h, saved, height, ReorgAttempt(h, c, s, first), w)
    ensures ReorgOnTree(h, c, s, first).Running?
    ensures LedgerOf(ReorgOnTree(h, c, s, first)) == AfterReorg(c, LedgerOf(s), first)
  {
  }

  lemma HarmlessReorgStaysSound(h: Hasher, c: Chain, height: nat, s: State, first: nat)
    requires Roots(h, c, height) && Sound(h, c, height, s) && BridgeOrder.Good(c, s.tables)
    requires HarmlessReorg(c, LedgerOf(s), first)
    ensures ReorgStaysSound(h, c, height, s, first)
    ensures LedgerOf(ReorgOnTree(h, c, s, first)) == AfterReorg(c, LedgerOf(s), first)
  {
    ReorgFollows(h, c, height, s, first);
    ReorgLedgerFollows(h, c, height, s, first, Hashes(s.tables.tree));
    var o := ReorgAttempt(h, c, s, first);
    if o.Done? {
      ReorgAgrees(c, s.tables, first);
      CommittedReorgIsSound(h, c, height, s, first, o.tx);
    } else {
      FailedReorgIsSound(h, c, height, s, first, o);
    }
  }

  /** A reorg keeps the tree sound if it is harmless and, with different leaves, only then. */
  lemma ReorgStaysSoundIff(h: Hasher, c: Chain, height: nat, s: State, first: nat)
    requires Roots(h, c, height) && Sound(h, c, height, s) && BridgeOrder.Good(c, s.tables)
    requires DistinguishableReorg(c, LedgerOf(s), first)
    ensures ReorgStaysSound(h, c, height, s, first) <==> HarmlessReorg(c, LedgerOf(s), first)
  {
    if HarmlessReorg(c, LedgerOf(s), first) {
      HarmlessReorgStaysSound(h, c, height, s, first);
    } else {
      ReorgFollows(h, c, height, s, first);
      var o := ReorgAttempt(h, c, s, first);
      if !o.Astray? { FailedReorgIsSound(h, c, height, s, first, o); }
    }
  }

  // ----- runs of blocks and reorgs -----

  function StepOnTree(h: Hasher, c: Chain, s: State, step: Step): State {
    match step
    case Process(b) => ProcessOnTree(h, c, s, b)
    case Purge(first) => ReorgOnTree(h, c, s, first)
  }

  function StepsOnTree(h: Hasher, c: Chain, s: State, steps: seq<Step>): State
    decreases |steps|
  {
    if steps == [] then s else StepsOnTree(h, c, StepOnTree(h, c, s, steps[0]), steps[1..])
  }

  function StepSyncer(c: Chain, s: Syncer, step: Step): Syncer {
    match step
    case Process(b) => ProcessBlock(c, s, b)
    case Purge(first) => ReorgSyncer(c, s, first)
  }

  function StepsSyncer(c: Chain, s: Syncer, steps: seq<Step>): Syncer
    decreases |steps|
  {
    if steps == [] then s else StepsSyncer(c, StepSyncer(c, s, steps[0]), steps[1..])
  }

  function AfterStep(c: Chain, l: Ledger, step: Step): Ledger {
    match step
    case Process(b) => AfterBlock(c, l, b)
    case Purge(first) => AfterReorg(c, l, first)
  }

  predicate HarmlessStep(c: Chain, l: Ledger, step: Step) {
    match step
    case Process(b) => Harmless(c, l, b)
    case Purge(first) => HarmlessReorg(c, l, first)
  }

  predicate DistinguishableStep(c: Chain, l: Ledger, step: Step) {
    match step
    case Process(b) => Distinguishable(c, l, b)
    case Purge(first) => DistinguishableReorg(c, l, first)
  }

  predicate HarmlessSteps(c: Chain, l: Ledger, steps: seq<Step>)
    decreases |steps|
  {
    steps != [] ==> HarmlessStep(c, l, steps[0]) && HarmlessSteps(c, AfterStep(c, l, steps[0]), steps[1..])
  }

  /** As long as the steps are harmless. */
  predicate DistinguishableSteps(c: Chain, l: Ledger, steps: seq<Step>)
    decreases |steps|
  {
    steps != [] ==> DistinguishableStep(c, l, steps[0])
                    && (HarmlessStep(c, l, steps[0]) ==> DistinguishableSteps(c, AfterStep(c, l, steps[0]), steps[1..]))
  }

  /** Blocks the syncer takes are well formed and reorgs undoable when their turn comes. */
  ghost predicate RegularSteps(c: Chain, s: Syncer, steps: seq<Step>)
    decreases |steps|
  {
    steps != [] ==>
      && ((steps[0].Process? && s.halted) || Regular(c, s.tables, [steps[0]]))
      && RegularSteps(c, StepSyncer(c, s, steps[0]), steps[1..])
  }

  ghost predicate StepStaysSound(h: Hasher, c: Chain, height: nat, s: State, step: Step)
    requires s.Running?
  {
    match step
    case Process(b) => StaysSound(h, c, height, s, b)
    case Purge(first) => ReorgStaysSound(h, c, height, s, first)
  }

  ghost predicate AllStepsStaySound(h: Hasher, c: Chain, height: nat, s: State, steps: seq<Step>)
    decreases |steps|
  {
    steps != [] ==> s.Running? && StepStaysSound(h, c, height, s, steps[0])
                    && AllStepsStaySound(h, c, height, StepOnTree(h, c, s, steps[0]), steps[1..])
  }

  /** A regular step keeps the rows in the order a reorg needs. */
  lemma RegularStepGood(c: Chain, s: Syncer, step: Step)
    requires BridgeOrder.Good(c, s.tables) && ((step.Process? && s.halted) || Regular(c, s.tables, [step]))
    ensures BridgeOrder.Good(c, StepSyncer(c, s, step).tables)
  {
    if !(step.Process? && s.halted) {
      StepGood(c, s.tables, step);
    }
  }

  lemma HarmlessStepStaysSound(h: Hasher, c: Chain, height: nat, s: State, step: Step)
    requires Roots(h, c, height) && Sound(h, c, height, s) && BridgeOrder.Good(c, s.tables)
    requires HarmlessStep(c, LedgerOf(s), step)
    ensures StepStaysSound(h, c, height, s, step)
    ensures var s' := StepOnTree(h, c, s, step);
            Sound(h, c, height, s') && Syncing(s') == StepSyncer(c, Syncing(s), step) && LedgerOf(s') == AfterStep(c, LedgerOf(s), step)
  {
    match step
    case Process(b) => HarmlessBlockStaysSound(h, c, height, s, b);
    case Purge(first) => HarmlessReorgStaysSound(h, c, height, s, first);
  }

  /** Over harmless blocks and reorgs the code's tables are those of the bookkeeping on lists, and agree with its tree. */
  lemma {:induction false} HarmlessStepsAgree(h: Hasher, c: Chain, height: nat, s: State, steps: seq<Step>)
    requires Roots(h, c, height) && Sound(h, c, height, s) && BridgeOrder.Good(c, s.tables)
    requires RegularSteps(c, Syncing(s), steps) && HarmlessSteps(c, LedgerOf(s), steps)
    ensures var s' := StepsOnTree(h, c, s, steps);
            && Sound(h, c, height, s') && Syncing(s') == StepsSyncer(c, Syncing(s), steps)
            && BridgeOrder.Good(c, s'.tables)
    decreases |steps|
  {
    if steps != [] {
      HarmlessStepStaysSound(h, c, height, s, steps[0]);
      RegularStepGood(c, Syncing(s), steps[0]);
      HarmlessStepsAgree(h, c, height, StepOnTree(h, c, s, steps[0]), steps[1..]);
    }
  }

  lemma StepStaysSoundIff(h: Hasher, c: Chain, height: nat, s: State, step: Step)
    requires Roots(h, c, height) && Sound(h, c, height, s) && BridgeOrder.Good(c, s.tables)
    requires DistinguishableStep(c, LedgerOf(s), step)
    ensures StepStaysSound(h, c, height, s, step) <==> HarmlessStep(c, LedgerOf(s), step)
  {
    match step
    case Process(b) => BlockStaysSoundIff(h, c, height, s, b);
    case Purge(first) => ReorgStaysSoundIff(h, c, height, s, first);
  }

  /** Over a regular run of blocks and reorgs the tree stays sound after each step if and only if each is harmless. */
  lemma {:induction false} StepsStaySoundIff(h: Hasher, c: Chain, height: nat, s: State, steps: seq<Step>)
    requires Roots(h, c, height) && Sound(h, c, height, s) && BridgeOrder.Good(c, s.tables)
    requires RegularSteps(c, Syncing(s), steps) && DistinguishableSteps(c, LedgerOf(s), steps)
    ensures AllStepsStaySound(h, c, height, s, steps) <==> HarmlessSteps(c, LedgerOf(s), steps)
    decreases |steps|
  {
    if steps != [] {
      StepStaysSoundIff(h, c, height, s, steps[0]);
      if HarmlessStep(c, LedgerOf(s), steps[0]) {
        HarmlessStepStaysSound(h, c, height, s, steps[0]);
        RegularStepGood(c, Syncing(s), steps[0]);
        StepsStaySoundIff(h, c, height, StepOnTree(h, c, s, steps[0]), steps[1..]);
      }
    }
  }

  // ----- ordinary runs -----

  /** Every block of the run commits on lists. */
  predicate Commits(c: Chain, t: Tables, steps: seq<Step>)
    decreases |steps|
  {
    steps != [] ==>
      && (steps[0].Process? ==> ApplyBlock(c, t, steps[0].block).Ok?)
      && Commits(c, ApplyStep(c, t, steps[0]), steps[1..])
  }

  /** An undoable reorg is harmless: it succeeds and leaves the leaves in order. */
  lemma UndoableReorgIsHarmless(c: Chain, l: Ledger, first: nat)
    requires UndoableFrom(c, l.tables, first)
    ensures ApplyReorg(c, l.tables, first).Ok? && HarmlessReorg(c, l, first)
  {
    var t0, lets :| BridgeReorg.Since(c, t0, first, l.tables, lets) && BridgeReorg.Undoable(t0, lets);
    BridgeReorg.ReorgUndoes(c, t0, first, l.tables, lets);
    var tree := ApplyReorg(c, l.tables, first).value.tree;
    assert tree == t0.tree;
    forall i, j | 0 <= i < j < |tree| ensures Earlier(tree[i].blockNum, tree[i].blockPos, tree[j].blockNum, tree[j].blockPos) {
      assert BridgeOrder.Precedes(tree[i], tree[j]);
    }
    OrderedReorgIsHarmless(c, l, first);
  }

  /** Such a step is harmless, and does what it does without a halt. */
  lemma CommittedStepIsHarmless(c: Chain, l: Ledger, step: Step)
    requires BridgeOrder.Good(c, l.tables) && !l.halted && Regular(c, l.tables, [step]) && Commits(c, l.tables, [step])
    ensures HarmlessStep(c, l, step)
    ensures StepSyncer(c, Syncer(l.tables, false), step) == Syncer(ApplyStep(c, l.tables, step), false)
  {
    match step
    case Process(b) => CommittedBlockIsHarmless(c, l, b);
    case Purge(first) => UndoableReorgIsHarmless(c, l, first);
  }

  lemma CommittedStepStaysSound(h: Hasher, c: Chain, height: nat, s: State, step: Step)
    requires Roots(h, c, height) && Sound(h, c, height, s) && !s.halted && BridgeOrder.Good(c, s.tables)
    requires Regular(c, s.tables, [step]) && Commits(c, s.tables, [step])
    ensures var s' := StepOnTree(h, c, s, step);
            && Sound(h, c, height, s') && !s'.halted
            && s'.tables == ApplyStep(c, s.tables, step) && BridgeOrder.Good(c, s'.tables)
  {
    CommittedStepIsHarmless(c, LedgerOf(s), step);
    HarmlessStepStaysSound(h, c, height, s, step);
    StepGood(c, s.tables, step);
  }

  lemma {:induction false} CommittedStepsStaySound(h: Hasher, c: Chain, height: nat, s: State, steps: seq<Step>)
    requires Roots(h, c, height) && Sound(h, c, height, s) && !s.halted && BridgeOrder.Good(c, s.tables)
    requires Regular(c, s.tables, steps) && Commits(c, s.tables, steps)
    ensures var s' := StepsOnTree(h, c, s, steps);
            Sound(h, c, height, s') && !s'.halted && s'.tables == ApplySteps(c, s.tables, steps)
    decreases |steps|
  {
    if steps != [] {
      assert [steps[0]][1..] == [];
      CommittedStepStaysSound(h, c, height, s, steps[0]);
      CommittedStepsStaySound(h, c, height, StepOnTree(h, c, s, steps[0]), steps[1..]);
    }
  }

  /**
   From an empty database, every run of well-formed blocks that commit on lists
   and of undoable reorgs does on the tree what it does on lists.
   */
  lemma CommittedStepsAgree(h: Hasher, c: Chain, left: seq<Hash>, steps: seq<Step>)
    requires Roots(h, c, |left|) && Regular(c, EMPTY_TABLES, steps) && Commits(c, EMPTY_TABLES, steps)
    ensures var s' := StepsOnTree(h, c, Fresh(left), steps);
            Sound(h, c, |left|, s') && !s'.halted && s'.tables == ApplySteps(c, EMPTY_TABLES, steps)
  {
    FreshIsSound(h, c, left);
    CommittedStepsStaySound(h, c, |left|, Fresh(left), steps);
  }
}
