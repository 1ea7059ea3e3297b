/**
 Latest-value notification of the bridge tracker's registry. Each subscriber
 has a channel of one slot. The publisher works under the registry's mutex, so
 subscribing and unsubscribing never interleave with a notification, but
 subscribers may receive at any moment, also between the publisher's three
 non-blocking channel operations.
 */
module LatestValue {
  import opened Prelude

  type SubID = nat

  /**
   A subscriber: the snapshot in its slot and those it received, as positions
   in the published sequence, and how many had been published when it joined.
   */
  datatype Sub = Sub(slot: Option<nat>, received: seq<nat>, since: nat, active: bool)

  /** Where the publisher is: outside, or notifying, perhaps between two operations on one channel. */
  datatype Phase =
    | Outside
    | Next(todo: set<SubID>)
    | Full(todo: set<SubID>, ch: SubID)
    | Drained(todo: set<SubID>, ch: SubID)

  datatype State<T> = State(published: seq<T>, subs: map<SubID, Sub>, phase: Phase)

  datatype Action<T> =
    | Subscribe(ch: SubID)
    | Unsubscribe(ch: SubID)
    | Receive(ch: SubID)
    | Publish(snapshot: T)
    | Send(ch: SubID)
    | Drain
    | Resend
    | Return

  function Init<T>(): State<T> {
    State([], map[], Outside)
  }

  function Active(subs: map<SubID, Sub>): set<SubID> {
    set ch | ch in subs && subs[ch].active
  }

  function Put<T>(s: State<T>, ch: SubID, sub: Sub, phase: Phase): State<T> {
    s.(subs := s.subs[ch := sub], phase := phase)
  }

  /** A non-blocking send: it fills an empty slot and leaves a full one. */
  function TrySend(sub: Sub, snapshot: nat): Sub {
    if sub.slot.None? then sub.(slot := Some(snapshot)) else sub
  }

  /** One step, or None when it is not enabled. */
  function Step<T>(s: State<T>, a: Action<T>): Option<State<T>> {
    match a
    case Subscribe(ch) =>
      if s.phase.Outside? && ch !in s.subs then Some(Put(s, ch, Sub(None, [], |s.published|, true), Outside)) else None
    case Unsubscribe(ch) =>
      if s.phase.Outside? && ch in s.subs then Some(Put(s, ch, s.subs[ch].(active := false), Outside)) else None
    case Receive(ch) =>
      if ch in s.subs && s.subs[ch].slot.Some?
      then Some(Put(s, ch, s.subs[ch].(slot := None, received := s.subs[ch].received + [s.subs[ch].slot.value]), s.phase))
      else None
    case Publish(snapshot) =>
      if s.phase.Outside? then Some(s.(published := s.published + [snapshot], phase := Next(Active(s.subs)))) else None
    case Send(ch) =>
      if s.phase.Next? && ch in s.phase.todo && ch in s.subs && s.published != [] then
        var todo := s.phase.todo - {ch};
        if s.subs[ch].slot.None? then Some(Put(s, ch, TrySend(s.subs[ch], |s.published| - 1), Next(todo)))
        else Some(s.(phase := Full(todo, ch)))
      else None
    case Drain =>
      if s.phase.Full? && s.phase.ch in s.subs
      then Some(Put(s, s.phase.ch, s.subs[s.phase.ch].(slot := None), Drained(s.phase.todo, s.phase.ch)))
      else None
    case Resend =>
      if s.phase.Drained? && s.phase.ch in s.subs && s.published != []
      then Some(Put(s, s.phase.ch, TrySend(s.subs[s.phase.ch], |s.published| - 1), Next(s.phase.todo)))
      else None
    case Return => if s.phase == Next({}) then Some(s.(phase := Outside)) else None
  }

  function Run<T>(s: State<T>, actions: seq<Action<T>>): Option<State<T>>
    decreases |actions|
  {
    if actions == [] then Some(s)
    else match Step(s, actions[0]) {
      case None => None
      case Some(s') => Run(s', actions[1..])
    }
  }

  // ----- what every step keeps -----

  /** Received snapshots come in publication order, none twice, none from before the subscription. */
  ghost predicate InOrder(sub: Sub, count: nat) {
    && (forall i, j :: 0 <= i < j < |sub.received| ==> sub.received[i] < sub.received[j])
    && (forall i :: 0 <= i < |sub.received| ==> sub.since <= sub.received[i] < count)
    && (sub.slot.Some? ==> sub.since <= sub.slot.value < count)
    && (sub.slot.Some? ==> forall i :: 0 <= i < |sub.received| ==> sub.received[i] < sub.slot.value)
    && sub.since <= count
  }

  /** The newest snapshot is in the slot or was the last one received, unless none was published since joining. */
  predicate UpToDate(sub: Sub, count: nat) {
    || sub.since >= count
    || sub.slot == Some(count - 1)
    || (sub.received != [] && sub.received[|sub.received| - 1] == count - 1)
  }

  /** The subscribers a notification has not served yet. */
  function Unserved(phase: Phase): set<SubID> {
    match phase
    case Outside => {}
    case Next(todo) => todo
    case Full(todo, ch) => todo + {ch}
    case Drained(todo, ch) => todo + {ch}
  }

  /** While unserved, a subscriber knows nothing of the newest snapshot; otherwise an active one is up to date. */
  ghost predicate SubOk(ch: SubID, sub: Sub, count: nat, phase: Phase) {
    && InOrder(sub, count)
    && (ch in Unserved(phase) ==> sub.active && count > 0 && sub.since < count && InOrder(sub, count - 1))
    && (ch !in Unserved(phase) && sub.active ==> UpToDate(sub, count))
    && (phase.Drained? && phase.ch == ch ==> sub.slot.None?)
  }

  ghost predicate PhaseOk<T>(s: State<T>) {
    && (forall ch :: ch in Unserved(s.phase) ==> ch in s.subs)
    && (!s.phase.Outside? ==> s.published != [])
    && (s.phase.Full? || s.phase.Drained? ==> s.phase.ch !in s.phase.todo)
  }

  ghost predicate Inv<T>(s: State<T>) {
    PhaseOk(s) && forall ch :: ch in s.subs ==> SubOk(ch, s.subs[ch], |s.published|, s.phase)
  }

  /** A step on one subscriber need only look after that one, as long as the phase is unchanged for the others. */
  lemma PutKeepsInv<T>(s: State<T>, ch: SubID, sub: Sub, phase: Phase)
    requires Inv(s) && SubOk(ch, sub, |s.published|, phase) && PhaseOk(Put(s, ch, sub, phase))
    requires Unserved(phase) - {ch} == Unserved(s.phase) - {ch}
    requires phase.Drained? && phase.ch != ch ==> s.phase == phase
    ensures Inv(Put(s, ch, sub, phase))
  {
    var s' := Put(s, ch, sub, phase);
    forall c | c in s'.subs ensures SubOk(c, s'.subs[c], |s'.published|, s'.phase) {
      if c != ch {
        assert SubOk(c, s.subs[c], |s.published|, s.phase);
        assert c in Unserved(phase) <==> c in Unserved(phase) - {ch};
        assert c in Unserved(s.phase) <==> c in Unserved(s.phase) - {ch};
      }
    }
  }

  lemma ReceiveKeepsOk(ch: SubID, sub: Sub, count: nat, phase: Phase)
    requires SubOk(ch, sub, count, phase) && sub.slot.Some?
    ensures SubOk(ch, sub.(slot := None, received := sub.received + [sub.slot.value]), count, phase)
  {
  }

  lemma SendServes(ch: SubID, sub: Sub, count: nat, phase: Phase, phase': Phase)
    requires SubOk(ch, sub, count, phase) && ch in Unserved(phase) && sub.slot.None?
    requires ch !in Unserved(phase') && !phase'.Drained?
    ensures SubOk(ch, TrySend(sub, count - 1), count, phase')
  {
  }

  lemma PublishKeepsInv<T>(s: State<T>, snapshot: T)
    requires Inv(s) && s.phase.Outside?
    ensures Inv(s.(published := s.published + [snapshot], phase := Next(Active(s.subs))))
  {
    var s' := s.(published := s.published + [snapshot], phase := Next(Active(s.subs)));
    forall ch | ch in s'.subs ensures SubOk(ch, s'.subs[ch], |s'.published|, s'.phase) {
      assert SubOk(ch, s.subs[ch], |s.published|, s.phase);
    }
  }

  lemma PhaseKeepsInv<T>(s: State<T>, phase: Phase)
    requires Inv(s) && Unserved(phase) == Unserved(s.phase) && !phase.Drained? && PhaseOk(s.(phase := phase))
    ensures Inv(s.(phase := phase))
  {
    forall ch | ch in s.subs ensures SubOk(ch, s.subs[ch], |s.published|, phase) {
      assert SubOk(ch, s.subs[ch], |s.published|, s.phase);
    }
  }

  lemma SendKeepsInv<T>(s: State<T>, ch: SubID)
    requires Inv(s) && Step(s, Send(ch)).Some?
    ensures Inv(Step(s, Send(ch)).value)
  {
    var todo := s.phase.todo - {ch};
    assert SubOk(ch, s.subs[ch], |s.published|, s.phase);
    if s.subs[ch].slot.None? {
      SendServes(ch, s.subs[ch], |s.published|, s.phase, Next(todo));
      PutKeepsInv(s, ch, TrySend(s.subs[ch], |s.published| - 1), Next(todo));
    } else {
      assert todo + {ch} == s.phase.todo;
      PhaseKeepsInv(s, Full(todo, ch));
    }
  }

  lemma DrainKeepsInv<T>(s: State<T>)
    requires Inv(s) && Step(s, Drain).Some?
    ensures Inv(Step(s, Drain).value)
  {
    var ch := s.phase.ch;
    var phase := Drained(s.phase.todo, ch);
    assert SubOk(ch, s.subs[ch], |s.published|, s.phase);
    DrainKeepsOk(ch, s.subs[ch], |s.published|, s.phase.todo);
    assert Unserved(phase) - {ch} == Unserved(s.phase) - {ch};
    PutKeepsInv(s, ch, s.subs[ch].(slot := None), phase);
  }

  lemma DrainKeepsOk(ch: SubID, sub: Sub, count: nat, todo: set<SubID>)
    requires SubOk(ch, sub, count, Full(todo, ch))
    ensures SubOk(ch, sub.(slot := None), count, Drained(todo, ch))
  {
  }

  lemma ResendKeepsInv<T>(s: State<T>)
    requires Inv(s) && Step(s, Resend).Some?
    ensures Inv(Step(s, Resend).value)
  {
    var ch := s.phase.ch;
    assert SubOk(ch, s.subs[ch], |s.published|, s.phase);
    var phase := Next(s.phase.todo);
    var sub := TrySend(s.subs[ch], |s.published| - 1);
    SendServes(ch, s.subs[ch], |s.published|, s.phase, phase);
    assert Unserved(phase) - {ch} == Unserved(s.phase) - {ch};
    PutKeepsInv(s, ch, sub, phase);
  }

  lemma StepKeepsInv<T>(s: State<T>, a: Action<T>)
    requires Inv(s) && Step(s, a).Some?
    ensures Inv(Step(s, a).value)
  {
    match a
    case Subscribe(ch) => PutKeepsInv(s, ch, Sub(None, [], |s.published|, true), Outside);
    case Unsubscribe(ch) =>
      assert SubOk(ch, s.subs[ch], |s.published|, s.phase);
      PutKeepsInv(s, ch, s.subs[ch].(active := false), Outside);
    case Receive(ch) =>
      ReceiveKeepsOk(ch, s.subs[ch], |s.published|, s.phase);
      PutKeepsInv(s, ch, Step(s, a).value.subs[ch], s.phase);
    case Publish(snapshot) => PublishKeepsInv(s, snapshot);
    case Send(ch) => SendKeepsInv(s, ch);
    case Drain => DrainKeepsInv(s);
    case Resend => ResendKeepsInv(s);
    case Return => PhaseKeepsInv(s, Outside);
  }

  lemma {:induction false} RunKeepsInv<T>(s: State<T>, actions: seq<Action<T>>)
    requires Inv(s) && Run(s, actions).Some?
    ensures Inv(Run(s, actions).value)
    decreases |actions|
  {
    if actions != [] {
      StepKeepsInv(s, actions[0]);
      RunKeepsInv(Step(s, actions[0]).value, actions[1..]);
    }
  }

  // ----- what holds after every run -----

  /** Every subscriber receives a subsequence of the published snapshots, in order, from when it joined. */
  lemma ReceivedInOrder<T>(actions: seq<Action<T>>, ch: SubID)
    requires Run(Init(), actions).Some? && ch in Run(Init(), actions).value.subs
    ensures var s := Run(Init(), actions).value;
            InOrder(s.subs[ch], |s.published|)
  {
    RunKeepsInv(Init(), actions);
    var s := Run(Init(), actions).value;
    assert SubOk(ch, s.subs[ch], |s.published|, s.phase);
  }

  // ----- told by the actions alone -----

  lemma {:induction false} RunSnoc<T>(s: State<T>, actions: seq<Action<T>>, a: Action<T>)
    requires Run(s, actions + [a]).Some?
    ensures Run(s, actions).Some? && Run(s, actions + [a]) == Step(Run(s, actions).value, a)
    decreases |actions|
  {
    if actions == [] {
      assert [] + [a] == [a] && [a][1..] == [];
    } else {
      assert (actions + [a])[0] == actions[0] && (actions + [a])[1..] == actions[1..] + [a];
      RunSnoc(Step(s, actions[0]).value, actions[1..], a);
    }
  }

  /** The snapshots published by the actions, in order. */
  function Snapshots<T>(actions: seq<Action<T>>): seq<T> {
    if actions == [] then []
    else
      var a := actions[|actions| - 1];
      Snapshots(actions[..|actions| - 1]) + if a.Publish? then [a.snapshot] else []
  }

  predicate Subscribes<T>(a: Action<T>, ch: SubID) {
    a.Subscribe? && a.ch == ch
  }

  predicate Unsubscribes<T>(a: Action<T>, ch: SubID) {
    a.Unsubscribe? && a.ch == ch
  }

  /** Action i subscribes ch, and no later action unsubscribes it. */
  ghost predicate SubscribedAt<T>(actions: seq<Action<T>>, ch: SubID, i: nat) {
    && i < |actions| && Subscribes(actions[i], ch)
    && forall j :: i < j < |actions| ==> !Unsubscribes(actions[j], ch)
  }

  /** What the run has made of the actions that concern one subscriber: whether it is one, and since when. */
  ghost predicate SubTold<T>(s: State<T>, actions: seq<Action<T>>, ch: SubID) {
    && (ch in s.subs <==> exists i :: 0 <= i < |actions| && Subscribes(actions[i], ch))
    && (ch in s.subs && s.subs[ch].active ==> exists i: nat :: SubscribedAt(actions, ch, i))
    && (forall i: nat :: SubscribedAt(actions, ch, i) ==>
          ch in s.subs && s.subs[ch].active && s.subs[ch].since == |Snapshots(actions[..i])|)
  }

  ghost predicate Told<T>(s: State<T>, actions: seq<Action<T>>) {
    s.published == Snapshots(actions) && forall ch: SubID :: SubTold(s, actions, ch)
  }

  lemma SnapshotsSnoc<T>(actions: seq<Action<T>>, a: Action<T>)
    ensures Snapshots(actions + [a]) == Snapshots(actions) + if a.Publish? then [a.snapshot] else []
  {
    assert (actions + [a])[..|actions|] == actions;
  }

  /** A step keeps the flag and the start of every subscriber it does not subscribe or unsubscribe. */
  lemma StepKeepsSubs<T>(s: State<T>, a: Action<T>, ch: SubID)
    requires Step(s, a).Some? && !Subscribes(a, ch) && !Unsubscribes(a, ch)
    ensures var s' := Step(s, a).value;
            && (ch in s'.subs <==> ch in s.subs)
            && (ch in s.subs ==> s'.subs[ch].active == s.subs[ch].active && s'.subs[ch].since == s.subs[ch].since)
  {
  }

  lemma SubscribedStep<T>(s: State<T>, actions: seq<Action<T>>, a: Action<T>, ch: SubID, i: nat)
    requires s.published == Snapshots(actions) && SubTold(s, actions, ch) && Step(s, a).Some? && SubscribedAt(actions + [a], ch, i)
    ensures var s' := Step(s, a).value;
            ch in s'.subs && s'.subs[ch].active && s'.subs[ch].since == |Snapshots((actions + [a])[..i])|
  {
    var all := actions + [a];
    if i == |actions| {
      assert all[..i] == actions;
    } else {
      assert all[..i] == actions[..i];
      assert actions[i] == all[i];
      forall j | i < j < |actions| ensures !Unsubscribes(actions[j], ch) { assert all[j] == actions[j]; }
      assert SubscribedAt(actions, ch, i);
      assert all[|actions|] == a;
      StepKeepsSubs(s, a, ch);
    }
  }

  lemma ActiveStep<T>(s: State<T>, actions: seq<Action<T>>, a: Action<T>, ch: SubID)
    requires SubTold(s, actions, ch) && Step(s, a).Some?
    requires ch in Step(s, a).value.subs && Step(s, a).value.subs[ch].active
    ensures exists i: nat :: SubscribedAt(actions + [a], ch, i)
  {
    var all := actions + [a];
    if Subscribes(a, ch) {
      assert SubscribedAt(all, ch, |actions|);
    } else {
      StepKeepsSubs(s, a, ch);
      var i: nat :| SubscribedAt(actions, ch, i);
      assert all[i] == actions[i];
      forall j | i < j < |all| ensures !Unsubscribes(all[j], ch) { if j < |actions| { assert all[j] == actions[j]; } }
      assert SubscribedAt(all, ch, i);
    }
  }

  lemma KnownStep<T>(s: State<T>, actions: seq<Action<T>>, a: Action<T>, ch: SubID)
    requires SubTold(s, actions, ch) && Step(s, a).Some?
    ensures ch in Step(s, a).value.subs <==> exists i :: 0 <= i < |actions + [a]| && Subscribes((actions + [a])[i], ch)
  {
    var all := actions + [a];
    if ch in s.subs {
      var i :| 0 <= i < |actions| && Subscribes(actions[i], ch);
      assert Subscribes(all[i], ch);
    }
    if i :| 0 <= i < |all| && Subscribes(all[i], ch) {
      if i < |actions| { assert Subscribes(actions[i], ch); }
    }
    if Subscribes(a, ch) { assert Subscribes(all[|actions|], ch); }
  }

  lemma SubToldStep<T>(s: State<T>, actions: seq<Action<T>>, a: Action<T>, ch: SubID)
    requires Told(s, actions) && Step(s, a).Some?
    ensures SubTold(Step(s, a).value, actions + [a], ch)
  {
    var s' := Step(s, a).value;
    KnownStep(s, actions, a, ch);
    if ch in s'.subs && s'.subs[ch].active { ActiveStep(s, actions, a, ch); }
    forall i: nat | SubscribedAt(actions + [a], ch, i)
      ensures ch in s'.subs && s'.subs[ch].active && s'.subs[ch].since == |Snapshots((actions + [a])[..i])|
    {
      SubscribedStep(s, actions, a, ch, i);
    }
  }

  lemma ToldStep<T>(s: State<T>, actions: seq<Action<T>>, a: Action<T>)
    requires Told(s, actions) && Step(s, a).Some?
    ensures Told(Step(s, a).value, actions + [a])
  {
    SnapshotsSnoc(actions, a);
    forall ch: SubID ensures SubTold(Step(s, a).value, actions + [a], ch) { SubToldStep(s, actions, a, ch); }
  }

  lemma {:induction false} RunIsTold<T>(actions: seq<Action<T>>)
    requires Run(Init(), actions).Some?
    ensures Told(Run(Init(), actions).value, actions)
    decreases |actions|
  {
    if actions != [] {
      var before, a := actions[..|actions| - 1], actions[|actions| - 1];
      assert actions == before + [a];
      RunSnoc(Init(), before, a);
      RunIsTold(before);
      ToldStep(Run(Init(), before).value, before, a);
    }
  }

  /** A subscriber is one exactly while it has subscribed and not unsubscribed since. */
  lemma ActiveIffSubscribed<T>(actions: seq<Action<T>>, ch: SubID)
    requires Run(Init(), actions).Some?
    ensures var s := Run(Init(), actions).value;
            ch in s.subs && s.subs[ch].active <==> exists i: nat :: SubscribedAt(actions, ch, i)
  {
    RunIsTold(actions);
    assert SubTold(Run(Init(), actions).value, actions, ch);
  }

  /**
   When a notification has returned, a subscriber that has not unsubscribed and
   joined before the newest snapshot was published holds it in its slot or
   received it last.
   */
  lemma NewestIsDelivered<T>(actions: seq<Action<T>>, ch: SubID, i: nat)
    requires Run(Init(), actions).Some? && Run(Init(), actions).value.phase.Outside?
    requires SubscribedAt(actions, ch, i) && |Snapshots(actions[..i])| < |Snapshots(actions)|
    ensures var s := Run(Init(), actions).value;
            var newest := |Snapshots(actions)| - 1;
            && s.published == Snapshots(actions) && ch in s.subs
            && (s.subs[ch].slot == Some(newest)
                || (s.subs[ch].received != [] && s.subs[ch].received[|s.subs[ch].received| - 1] == newest))
  {
    RunKeepsInv(Init(), actions);
    RunIsTold(actions);
    var s := Run(Init(), actions).value;
    assert SubTold(s, actions, ch);
    assert SubOk(ch, s.subs[ch], |s.published|, s.phase);
  }

  /** Unsubscribed: no notification has it ahead, and it has nothing from position n on. */
  ghost predicate Quiet<T>(s: State<T>, ch: SubID, n: nat) {
    && ch in s.subs && !s.subs[ch].active && ch !in Unserved(s.phase)
    && (s.subs[ch].slot.Some? ==> s.subs[ch].slot.value < n)
    && forall i :: 0 <= i < |s.subs[ch].received| ==> s.subs[ch].received[i] < n
  }

  lemma StaysQuiet<T>(s: State<T>, a: Action<T>, ch: SubID, n: nat)
    requires Quiet(s, ch, n) && Step(s, a).Some?
    ensures Quiet(Step(s, a).value, ch, n)
  {
  }

  lemma {:induction false} RunStaysQuiet<T>(s: State<T>, actions: seq<Action<T>>, ch: SubID, n: nat)
    requires Quiet(s, ch, n) && Run(s, actions).Some?
    ensures Quiet(Run(s, actions).value, ch, n)
    decreases |actions|
  {
    if actions != [] {
      StaysQuiet(s, actions[0], ch, n);
      RunStaysQuiet(Step(s, actions[0]).value, actions[1..], ch, n);
    }
  }

  lemma {:induction false} RunSplits<T>(s: State<T>, a: seq<Action<T>>, b: seq<Action<T>>)
    requires Run(s, a + b).Some?
    ensures Run(s, a).Some? && Run(s, a + b) == Run(Run(s, a).value, b)
    decreases |a|
  {
    if a == [] {
      assert a + b == b;
    } else {
      assert (a + b)[0] == a[0] && (a + b)[1..] == a[1..] + b;
      RunSplits(Step(s, a[0]).value, a[1..], b);
    }
  }

  /** No snapshot published after a subscriber has left ever reaches it. */
  lemma NothingAfterLeaving<T>(actions: seq<Action<T>>, ch: SubID, k: nat)
    requires Run(Init(), actions).Some? && k < |actions| && Unsubscribes(actions[k], ch)
    ensures Quiet(Run(Init(), actions).value, ch, |Snapshots(actions[..k])|)
  {
    var before, after := actions[..k + 1], actions[k + 1..];
    assert actions == before + after && before == actions[..k] + [actions[k]];
    RunSplits(Init(), before, after);
    RunSnoc(Init(), actions[..k], actions[k]);
    RunKeepsInv(Init(), actions[..k]);
    RunIsTold(actions[..k]);
    var s := Run(Init(), actions[..k]).value;
    assert SubOk(ch, s.subs[ch], |s.published|, s.phase);
    RunStaysQuiet(Run(Init(), before).value, after, ch, |Snapshots(actions[..k])|);
  }

  /**
   Nobody is kept out: outside a notification a new channel can subscribe, a
   known one can leave and a snapshot can be published, and at any time a
   subscriber can receive exactly when its slot is full.
   */
  lemma NobodyIsKeptOut<T>(actions: seq<Action<T>>, ch: SubID, snapshot: T)
    requires Run(Init(), actions).Some?
    ensures var s := Run(Init(), actions).value;
            var known := exists i :: 0 <= i < |actions| && Subscribes(actions[i], ch);
            && (s.phase.Outside? ==> (Step(s, Subscribe(ch)).Some? <==> !known))
            && (s.phase.Outside? ==> (Step(s, Unsubscribe(ch)).Some? <==> known))
            && (s.phase.Outside? ==> Step(s, Publish(snapshot)).Some?)
            && (Step(s, Receive(ch)).Some? <==> ch in s.subs && s.subs[ch].slot.Some?)
  {
    RunIsTold(actions);
    assert SubTold(Run(Init(), actions).value, actions, ch);
  }

  /** How many operations the publisher still has ahead of it, at most. */
  function Ahead(phase: Phase): nat {
    match phase
    case Outside => 0
    case Next(todo) => 1 + 3 * |todo|
    case Full(todo, _) => 3 + 3 * |todo|
    case Drained(todo, _) => 2 + 3 * |todo|
  }

  predicate Publishers<T>(a: Action<T>) {
    a.Send? || a.Drain? || a.Resend? || a.Return?
  }

  /**
   Notifying never blocks: in the middle of a notification some operation of the
   publisher is enabled whatever the subscribers do or do not do, each of its
   operations brings the end nearer, and receiving does not put it off.
   */
  lemma NotifyNeverBlocks<T>(actions: seq<Action<T>>) returns (a: Action<T>)
    requires Run(Init(), actions).Some? && !Run(Init(), actions).value.phase.Outside?
    ensures Publishers(a) && Step(Run(Init(), actions).value, a).Some?
  {
    var s := Run(Init(), actions).value;
    RunKeepsInv(Init(), actions);
    match s.phase
    case Next(todo) =>
      if todo == {} {
        a := Return;
      } else {
        var ch :| ch in todo;
        assert ch in Unserved(s.phase);
        a := Send(ch);
      }
    case Full(todo, ch) =>
      assert ch in Unserved(s.phase);
      a := Drain;
    case Drained(todo, ch) =>
      assert ch in Unserved(s.phase);
      a := Resend;
  }

  lemma NotifyEnds<T>(s: State<T>, a: Action<T>)
    requires Step(s, a).Some? && !s.phase.Outside?
    ensures Publishers(a) ==> Ahead(Step(s, a).value.phase) < Ahead(s.phase)
    ensures !Publishers(a) ==> Step(s, a).value.phase == s.phase
  {
    if a.Send? { assert |s.phase.todo - {a.ch}| == |s.phase.todo| - 1; }
  }
}
