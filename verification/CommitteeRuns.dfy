/** Every interleaving of the validators' goroutines with the collector. */
module CommitteeRuns {
  import opened Prelude
  import opened Committee

  /** A validator's goroutine: not started, asking, holding its reply, done after sending, or stopped by the cancellation. */
  datatype Pc = Start | Calling | Replied(reply: Reply) | Sent | Skipped

  /** All results ever sent, of which the first `taken` have left the channel. */
  datatype State = State(
    pcs: seq<Pc>,
    log: seq<Message>,
    taken: nat,
    closed: bool,
    signatures: seq<Message>,
    cancelled: bool,
    done: bool)

  datatype Action = Begin(i: nat) | Answer(i: nat, reply: Reply) | Send(i: nat) | Close | Receive | Finish

  function Init(n: nat): State {
    State(seq(n, _ => Start), [], 0, false, [], false, false)
  }

  predicate At(s: State, i: nat, pc: Pc) {
    i < |s.pcs| && s.pcs[i] == pc
  }

  predicate Over(pc: Pc) {
    pc.Sent? || pc.Skipped?
  }

  /** The collector takes one result, and with enough signatures cancels the others and stops. */
  function ReceiveStep(threshold: uint64, s: State): State
    requires s.taken < |s.log|
  {
    var m := s.log[s.taken];
    var signatures := if Good(m.reply) then s.signatures + [m] else s.signatures;
    var stop := Good(m.reply) && |signatures| >= threshold;
    s.(taken := s.taken + 1, signatures := signatures, cancelled := s.cancelled || stop, done := stop)
  }

  /** One step, or None when it is not enabled; answers[i] is what validator i replies while the context is live. */
  function Step(answers: seq<Reply>, threshold: uint64, s: State, a: Action): Option<State> {
    match a
    case Begin(i) =>
      if At(s, i, Start) then Some(s.(pcs := s.pcs[i := if s.cancelled then Skipped else Calling])) else None
    case Answer(i, reply) =>
      if At(s, i, Calling) && i < |answers| && (s.cancelled || reply == answers[i])
      then Some(s.(pcs := s.pcs[i := Replied(reply)])) else None
    case Send(i) =>
      if i < |s.pcs| && s.pcs[i].Replied? && s.taken <= |s.log| && |s.log| - s.taken < |s.pcs|
      then Some(s.(pcs := s.pcs[i := Sent], log := s.log + [Message(i, s.pcs[i].reply)])) else None
    case Close =>
      if !s.closed && forall i :: 0 <= i < |s.pcs| ==> Over(s.pcs[i]) then Some(s.(closed := true)) else None
    case Receive =>
      if !s.done && s.taken < |s.log| then Some(ReceiveStep(threshold, s)) else None
    case Finish =>
      if !s.done && s.closed && s.taken == |s.log| then Some(s.(cancelled := true, done := true)) else None
  }

  function Run(answers: seq<Reply>, threshold: uint64, s: State, actions: seq<Action>): Option<State>
    decreases |actions|
  {
    if actions == [] then Some(s)
    else match Step(answers, threshold, s, actions[0]) {
      case None => None
      case Some(s') => Run(answers, threshold, s', actions[1..])
    }
  }

  // ----- what every step keeps -----

  ghost predicate Distinct(ms: seq<Message>) {
    forall i, j :: 0 <= i < j < |ms| ==> ms[i].index != ms[j].index
  }

  /** The log holds one result for each validator that has sent. */
  ghost predicate LogOk(s: State) {
    && s.taken <= |s.log|
    && Distinct(s.log)
    && (forall k :: 0 <= k < |s.log| ==> At(s, s.log[k].index, Sent))
    && (forall i :: 0 <= i < |s.pcs| && s.pcs[i].Sent? ==> exists k :: 0 <= k < |s.log| && s.log[k].index == i)
    && (s.closed ==> forall i :: 0 <= i < |s.pcs| ==> Over(s.pcs[i]))
  }

  /** Until the cancellation everyone takes part, and what the collector has read is what the validators answer. */
  ghost predicate AnswersOk(answers: seq<Reply>, s: State) {
    && |s.pcs| == |answers|
    && (forall k :: 0 <= k < |s.log| && (k < s.taken || !s.cancelled) ==>
          s.log[k].index < |answers| && s.log[k].reply == answers[s.log[k].index])
    && (!s.cancelled ==> forall i :: 0 <= i < |s.pcs| ==>
          !s.pcs[i].Skipped? && (s.pcs[i].Replied? ==> s.pcs[i].reply == answers[i]))
  }

  ghost predicate CollectorOk(threshold: uint64, s: State)
    requires s.taken <= |s.log|
  {
    && s.signatures == Entries(s.log[..s.taken])
    && s.cancelled == s.done
    && (!s.done ==> |s.signatures| < Wanted(threshold))
    && |s.signatures| <= Wanted(threshold)
    && (s.done && |s.signatures| < Wanted(threshold) ==>
          s.taken == |s.log| && forall i :: 0 <= i < |s.pcs| ==> s.pcs[i].Sent?)
  }

  ghost predicate Inv(answers: seq<Reply>, threshold: uint64, s: State) {
    LogOk(s) && AnswersOk(answers, s) && CollectorOk(threshold, s)
  }

  lemma MoveKeepsInv(answers: seq<Reply>, threshold: uint64, s: State, i: nat, pc: Pc)
    requires Inv(answers, threshold, s) && i < |s.pcs| && !Over(s.pcs[i]) && !pc.Sent?
    requires !s.cancelled ==> !pc.Skipped? && (pc.Replied? ==> pc.reply == answers[i])
    ensures Inv(answers, threshold, s.(pcs := s.pcs[i := pc]))
  {
    var s' := s.(pcs := s.pcs[i := pc]);
    assert LogOk(s') by {
      forall k | 0 <= k < |s.log| ensures At(s', s.log[k].index, Sent) {
        assert At(s, s.log[k].index, Sent);
      }
    }
  }

  lemma SendKeepsLog(answers: seq<Reply>, threshold: uint64, s: State, i: nat)
    requires Inv(answers, threshold, s) && i < |s.pcs| && s.pcs[i].Replied?
    ensures LogOk(s.(pcs := s.pcs[i := Sent], log := s.log + [Message(i, s.pcs[i].reply)]))
  {
    var s' := s.(pcs := s.pcs[i := Sent], log := s.log + [Message(i, s.pcs[i].reply)]);
    forall k | 0 <= k < |s.log| ensures s.log[k].index != i && At(s', s.log[k].index, Sent) {
      assert At(s, s.log[k].index, Sent);
    }
    forall j | 0 <= j < |s'.pcs| && s'.pcs[j].Sent? ensures exists k :: 0 <= k < |s'.log| && s'.log[k].index == j {
      if j == i {
        assert s'.log[|s.log|].index == j;
      } else {
        var k :| 0 <= k < |s.log| && s.log[k].index == j;
        assert s'.log[k].index == j;
      }
    }
  }

  lemma SendKeepsInv(answers: seq<Reply>, threshold: uint64, s: State, i: nat)
    requires Inv(answers, threshold, s) && i < |s.pcs| && s.pcs[i].Replied?
    ensures Inv(answers, threshold, s.(pcs := s.pcs[i := Sent], log := s.log + [Message(i, s.pcs[i].reply)]))
  {
    SendKeepsLog(answers, threshold, s, i);
    assert (s.log + [Message(i, s.pcs[i].reply)])[..s.taken] == s.log[..s.taken];
  }

  lemma ReceiveKeepsInv(answers: seq<Reply>, threshold: uint64, s: State)
    requires Inv(answers, threshold, s) && !s.done && s.taken < |s.log|
    ensures Inv(answers, threshold, ReceiveStep(threshold, s))
  {
    EntriesGrow(s.log[..s.taken], s.log[s.taken]);
    assert s.log[..s.taken] + [s.log[s.taken]] == s.log[..s.taken + 1];
  }

  lemma StepKeepsInv(answers: seq<Reply>, threshold: uint64, s: State, a: Action)
    requires Inv(answers, threshold, s) && Step(answers, threshold, s, a).Some?
    ensures Inv(answers, threshold, Step(answers, threshold, s, a).value)
  {
    match a
    case Begin(i) => MoveKeepsInv(answers, threshold, s, i, if s.cancelled then Skipped else Calling);
    case Answer(i, reply) => MoveKeepsInv(answers, threshold, s, i, Replied(reply));
    case Send(i) => SendKeepsInv(answers, threshold, s, i);
    case Close =>
    case Receive => ReceiveKeepsInv(answers, threshold, s);
    case Finish =>
  }

  lemma {:induction false} RunKeepsInv(answers: seq<Reply>, threshold: uint64, s: State, actions: seq<Action>)
    requires Inv(answers, threshold, s) && Run(answers, threshold, s, actions).Some?
    ensures Inv(answers, threshold, Run(answers, threshold, s, actions).value)
    decreases |actions|
  {
    if actions != [] {
      StepKeepsInv(answers, threshold, s, actions[0]);
      RunKeepsInv(answers, threshold, Step(answers, threshold, s, actions[0]).value, actions[1..]);
    }
  }

  lemma InitIsOk(answers: seq<Reply>, threshold: uint64)
    ensures Inv(answers, threshold, Init(|answers|))
  {
  }

  // ----- counting -----

  function Indices(ms: seq<Message>): set<nat> {
    set k | 0 <= k < |ms| :: ms[k].index
  }

  lemma IndicesGrow(ms: seq<Message>, m: Message)
    ensures Indices(ms + [m]) == Indices(ms) + {m.index}
  {
    var all := ms + [m];
    assert all[|ms|].index == m.index;
    forall k | 0 <= k < |ms| ensures ms[k].index in Indices(all) {
      assert all[k].index == ms[k].index;
    }
  }

  lemma {:induction false} DistinctCount(ms: seq<Message>)
    requires Distinct(ms)
    ensures |Indices(ms)| == |ms|
    decreases |ms|
  {
    if ms != [] {
      var before, last := ms[..|ms| - 1], ms[|ms| - 1];
      DistinctCount(before);
      IndicesGrow(before, last);
      assert before + [last] == ms;
      assert last.index !in Indices(before);
    }
  }

  lemma {:induction false} EntriesMembers(ms: seq<Message>)
    ensures forall m :: m in Entries(ms) <==> m in ms && Good(m.reply)
  {
    if ms != [] { EntriesMembers(ms[1..]); }
  }

  lemma {:induction false} EntriesDistinct(ms: seq<Message>)
    requires Distinct(ms)
    ensures Distinct(Entries(ms))
  {
    if ms != [] {
      EntriesDistinct(ms[1..]);
      EntriesMembers(ms[1..]);
      var rest := Entries(ms[1..]);
      assert forall k :: 0 <= k < |rest| ==> rest[k] in ms[1..];
    }
  }

  /** The validators that return a good signature. */
  function GoodOnes(answers: seq<Reply>): set<nat> {
    set i | 0 <= i < |answers| && !answers[i].failed && |answers[i].signature| == 65
  }

  lemma Bounded(s: set<nat>, n: nat)
    requires forall i :: i in s ==> i < n
    ensures |s| <= n
    decreases n
  {
    if n > 0 {
      Bounded(s - {n - 1}, n - 1);
      assert s <= (s - {n - 1}) + {n - 1};
      SubsetSize(s, (s - {n - 1}) + {n - 1});
    }
  }

  lemma {:induction false} SubsetSize(a: set<nat>, b: set<nat>)
    requires a <= b
    ensures |a| <= |b|
    decreases |a|
  {
    if a != {} {
      var x :| x in a;
      SubsetSize(a - {x}, b - {x});
    }
  }

  // ----- what holds of every run -----

  /** What the collector holds are good signatures of different validators, as those validators answered. */
  lemma SignaturesAreSound(answers: seq<Reply>, threshold: uint64, s: State)
    requires Inv(answers, threshold, s)
    ensures Distinct(s.signatures) && Indices(s.signatures) <= GoodOnes(answers)
    ensures forall m :: m in s.signatures ==> m.index < |answers| && m.reply == answers[m.index] && Good(m.reply)
  {
    var read := s.log[..s.taken];
    assert Distinct(read);
    EntriesDistinct(read);
    EntriesMembers(read);
    forall m | m in s.signatures ensures m.index < |answers| && m.reply == answers[m.index] && Good(m.reply) {
      var k :| 0 <= k < |read| && read[k] == m;
      assert s.log[k] == m;
    }
    forall i | i in Indices(s.signatures) ensures i in GoodOnes(answers) {
      var k :| 0 <= k < |s.signatures| && s.signatures[k].index == i;
      assert s.signatures[k] in s.signatures;
    }
  }

  /** A collector that read everything missed no good signature. */
  lemma SignaturesAreComplete(answers: seq<Reply>, threshold: uint64, s: State)
    requires Inv(answers, threshold, s) && s.taken == |s.log| && forall i :: 0 <= i < |s.pcs| ==> s.pcs[i].Sent?
    ensures GoodOnes(answers) <= Indices(s.signatures)
  {
    assert s.log[..s.taken] == s.log;
    EntriesMembers(s.log);
    forall i | i in GoodOnes(answers) ensures i in Indices(s.signatures) {
      assert s.pcs[i].Sent?;
      var k :| 0 <= k < |s.log| && s.log[k].index == i;
      assert s.log[k] in s.log && Good(s.log[k].reply);
      var j :| 0 <= j < |s.signatures| && s.signatures[j] == s.log[k];
      assert s.signatures[j].index == i;
    }
  }

  /**
   Whatever the interleaving and the order of arrival, polling succeeds exactly
   when enough validators return a good signature, and then yields as many
   entries as the threshold asks for, from different validators.
   */
  lemma OrderDoesNotMatter(answers: seq<Reply>, threshold: uint64, actions: seq<Action>)
    requires var r := Run(answers, threshold, Init(|answers|), actions); r.Some? && r.value.done
    ensures var s := Run(answers, threshold, Init(|answers|), actions).value;
            && (|s.signatures| >= threshold <==> |GoodOnes(answers)| >= threshold)
            && Distinct(s.signatures)
            && (forall m :: m in s.signatures ==> && m.index < |answers| && m.reply == answers[m.index]
                                                  && !m.reply.failed && |m.reply.signature| == 65)
            && (threshold >= 1 && |s.signatures| >= threshold ==> |s.signatures| == threshold)
  {
    InitIsOk(answers, threshold);
    RunKeepsInv(answers, threshold, Init(|answers|), actions);
    var s := Run(answers, threshold, Init(|answers|), actions).value;
    SignaturesAreSound(answers, threshold, s);
    DistinctCount(s.signatures);
    SubsetSize(Indices(s.signatures), GoodOnes(answers));
    if |s.signatures| != Wanted(threshold) {
      SignaturesAreComplete(answers, threshold, s);
      SubsetSize(GoodOnes(answers), Indices(s.signatures));
    }
  }

  /** Once there are enough signatures nobody new is asked: who has not begun is skipped, and no step adds a signature. */
  lemma CancelStopsAsking(answers: seq<Reply>, threshold: uint64, actions: seq<Action>, a: Action, i: nat)
    requires var r := Run(answers, threshold, Init(|answers|), actions); r.Some? && r.value.done
    requires Step(answers, threshold, Run(answers, threshold, Init(|answers|), actions).value, a).Some? && i < |answers|
    ensures var s := Run(answers, threshold, Init(|answers|), actions).value;
            var s' := Step(answers, threshold, s, a).value;
            && |s.pcs| == |s'.pcs| == |answers|
            && (s'.pcs[i].Calling? ==> s.pcs[i].Calling?) && (a == Begin(i) ==> s'.pcs[i].Skipped?)
            && s'.signatures == s.signatures && s'.done
  {
    InitIsOk(answers, threshold);
    RunKeepsInv(answers, threshold, Init(|answers|), actions);
  }

  lemma RoomToSend(answers: seq<Reply>, threshold: uint64, s: State, i: nat)
    requires Inv(answers, threshold, s) && i < |s.pcs| && s.pcs[i].Replied?
    ensures |s.log| < |s.pcs|
  {
    DistinctCount(s.log);
    var used := Indices(s.log);
    forall j | j in used ensures j < |s.pcs| && j != i {
      var k :| 0 <= k < |s.log| && s.log[k].index == j;
      assert At(s, j, Sent);
    }
    assert |used + {i}| == |used| + 1;
    Bounded(used + {i}, |s.pcs|);
  }

  /** No sender ever blocks: a goroutine holding its reply always finds room in the channel. */
  lemma SendersNeverBlock(answers: seq<Reply>, threshold: uint64, actions: seq<Action>, i: nat)
    requires var r := Run(answers, threshold, Init(|answers|), actions);
             r.Some? && i < |r.value.pcs| && r.value.pcs[i].Replied?
    ensures Step(answers, threshold, Run(answers, threshold, Init(|answers|), actions).value, Send(i)).Some?
  {
    InitIsOk(answers, threshold);
    RunKeepsInv(answers, threshold, Init(|answers|), actions);
    RoomToSend(answers, threshold, Run(answers, threshold, Init(|answers|), actions).value, i);
  }

  lemma SomeStep(answers: seq<Reply>, threshold: uint64, s: State) returns (a: Action)
    requires Inv(answers, threshold, s) && !s.done
    ensures Step(answers, threshold, s, a).Some?
  {
    if s.taken < |s.log| {
      a := Receive;
    } else if i :| 0 <= i < |s.pcs| && !Over(s.pcs[i]) {
      if s.pcs[i].Start? {
        a := Begin(i);
      } else if s.pcs[i].Calling? {
        a := Answer(i, answers[i]);
      } else {
        RoomToSend(answers, threshold, s, i);
        a := Send(i);
      }
    } else if s.closed {
      a := Finish;
    } else {
      a := Close;
    }
  }

  /** Polling never gets stuck: until it is done, some step is enabled. */
  lemma NeverStuck(answers: seq<Reply>, threshold: uint64, actions: seq<Action>) returns (a: Action)
    requires var r := Run(answers, threshold, Init(|answers|), actions); r.Some? && !r.value.done
    ensures Step(answers, threshold, Run(answers, threshold, Init(|answers|), actions).value, a).Some?
  {
    InitIsOk(answers, threshold);
    RunKeepsInv(answers, threshold, Init(|answers|), actions);
    a := SomeStep(answers, threshold, Run(answers, threshold, Init(|answers|), actions).value);
  }

  /** How many steps the goroutines, the closer and the collector still have ahead of them, at most. */
  function Ahead(s: State): nat
    requires s.taken <= |s.log|
  {
    AheadOf(s.pcs) + (|s.log| - s.taken) + (if s.closed then 0 else 1) + (if s.done then 0 else 1)
  }

  function Weight(pc: Pc): nat {
    match pc
    case Start => 4
    case Calling => 3
    case Replied(_) => 2
    case Sent => 0
    case Skipped => 0
  }

  function AheadOf(pcs: seq<Pc>): nat {
    if pcs == [] then 0 else AheadOf(pcs[..|pcs| - 1]) + Weight(pcs[|pcs| - 1])
  }

  lemma {:induction false} MoveAhead(pcs: seq<Pc>, i: nat, pc: Pc)
    requires i < |pcs|
    ensures AheadOf(pcs[i := pc]) == AheadOf(pcs) - Weight(pcs[i]) + Weight(pc)
    decreases |pcs|
  {
    var last := |pcs| - 1;
    if i < last {
      MoveAhead(pcs[..last], i, pc);
      assert pcs[i := pc][..last] == pcs[..last][i := pc];
    } else {
      assert pcs[i := pc][..last] == pcs[..last];
    }
  }

  /** Every step brings the end nearer, so every run is finite. */
  lemma RunsEnd(answers: seq<Reply>, threshold: uint64, s: State, a: Action)
    requires s.taken <= |s.log| && Step(answers, threshold, s, a).Some?
    ensures var s' := Step(answers, threshold, s, a).value; s'.taken <= |s'.log| && Ahead(s') < Ahead(s)
  {
    match a
    case Begin(i) => MoveAhead(s.pcs, i, if s.cancelled then Skipped else Calling);
    case Answer(i, reply) => MoveAhead(s.pcs, i, Replied(reply));
    case Send(i) => MoveAhead(s.pcs, i, Sent);
    case Close =>
    case Receive =>
    case Finish =>
  }
}
