/**
 The health-check cache: a value with an expiry time, recomputed by at most one
 caller at a time while the others wait on that caller's channel. A run is any
 interleaving of the callers' atomic steps: the sections under the mutex, the
 computation, closing a channel and receiving from one.
 */
module SingleFlight {
  import opened Prelude

  type Caller = nat

  /** The n-th computation ever started; each makes one channel, named by the same number. */
  type Ticket = nat

  datatype Result = Result(ticket: Ticket, entry: int, storedAt: int)

  datatype How = Fresh(at: int) | Waited(ch: Ticket) | Computed(ch: Ticket) | Panicked(ch: Ticket)

  /** Where a caller is; None as a computation's outcome is a panic, None as a return value is the zero entry. */
  datatype Pc =
    | Idle
    | Waiting(ch: Ticket)
    | Woken(ch: Ticket)
    | Computing(ch: Ticket)
    | Settling(ch: Ticket, outcome: Option<int>)
    | Closing(ch: Ticket, result: Option<Result>)
    | Returned(how: How, result: Option<Result>)

  datatype State = State(
    now: int,
    value: Option<Result>,
    expires: Option<int>,
    inflight: Option<Ticket>,
    closes: seq<nat>,
    owner: seq<Caller>,
    panicked: set<Ticket>,
    pcs: map<Caller, Pc>)

  datatype Action =
    | Tick(to: int)
    | Arrive(caller: Caller)
    | Enter(caller: Caller)
    | Compute(caller: Caller, entry: int)
    | Panic(caller: Caller)
    | Settle(caller: Caller)
    | Close(caller: Caller)
    | Wake(caller: Caller)
    | Read(caller: Caller)

  function Init(now: int): State {
    State(now, None, None, None, [], [], {}, map[])
  }

  predicate At(s: State, c: Caller, pc: Pc) {
    c in s.pcs && s.pcs[c] == pc
  }

  function Move(s: State, c: Caller, pc: Pc): State {
    s.(pcs := s.pcs[c := pc])
  }

  /** The first section under the mutex: a fresh hit, joining a computation, or starting one. */
  function EnterStep(s: State, c: Caller): State {
    if s.expires.Some? && s.now < s.expires.value then Move(s, c, Returned(Fresh(s.now), s.value))
    else if s.inflight.Some? then Move(s, c, Waiting(s.inflight.value))
    else Started(s, c)
  }

  function Started(s: State, c: Caller): State {
    var ch := |s.closes|;
    Move(s.(inflight := Some(ch), closes := s.closes + [0], owner := s.owner + [c]), c, Computing(ch))
  }

  /** The deferred section under the mutex: a completed result is stored, a panic stores nothing. */
  function SettleStep(ttl: int, s: State, c: Caller, ch: Ticket, outcome: Option<int>): State {
    var result := if outcome.Some? then Some(Result(ch, outcome.value, s.now)) else None;
    var stored := if result.Some? then s.(value := result, expires := Some(s.now + ttl)) else s;
    Move(stored.(inflight := None), c, Closing(ch, result))
  }

  function CloseStep(s: State, c: Caller, ch: Ticket, result: Option<Result>): State
    requires ch < |s.closes|
  {
    Move(s.(closes := s.closes[ch := s.closes[ch] + 1]), c,
         Returned(if result.Some? then Computed(ch) else Panicked(ch), result))
  }

  /** One step, or None when it is not enabled. */
  function Next(ttl: int, s: State, a: Action): Option<State> {
    match a
    case Tick(to) => if s.now <= to then Some(s.(now := to)) else None
    case Arrive(c) => if c !in s.pcs || s.pcs[c].Returned? then Some(Move(s, c, Idle)) else None
    case Enter(c) => if At(s, c, Idle) then Some(EnterStep(s, c)) else None
    case Compute(c, entry) =>
      if c in s.pcs && s.pcs[c].Computing? then Some(Move(s, c, Settling(s.pcs[c].ch, Some(entry)))) else None
    case Panic(c) =>
      if c in s.pcs && s.pcs[c].Computing?
      then Some(Move(s.(panicked := s.panicked + {s.pcs[c].ch}), c, Settling(s.pcs[c].ch, None))) else None
    case Settle(c) =>
      if c in s.pcs && s.pcs[c].Settling? then Some(SettleStep(ttl, s, c, s.pcs[c].ch, s.pcs[c].outcome)) else None
    case Close(c) =>
      if c in s.pcs && s.pcs[c].Closing? && s.pcs[c].ch < |s.closes|
      then Some(CloseStep(s, c, s.pcs[c].ch, s.pcs[c].result)) else None
    case Wake(c) =>
      if c in s.pcs && s.pcs[c].Waiting? && s.pcs[c].ch < |s.closes| && s.closes[s.pcs[c].ch] > 0
      then Some(Move(s, c, Woken(s.pcs[c].ch))) else None
    case Read(c) =>
      if c in s.pcs && s.pcs[c].Woken? then Some(Move(s, c, Returned(Waited(s.pcs[c].ch), s.value))) else None
  }

  /** The state after a sequence of steps, or None if one of them is not enabled. */
  function Run(ttl: int, s: State, actions: seq<Action>): Option<State>
    decreases |actions|
  {
    if actions == [] then Some(s)
    else match Next(ttl, s, actions[0]) {
      case None => None
      case Some(s') => Run(ttl, s', actions[1..])
    }
  }

  // ----- what every step keeps -----

  /** Inside the flight: from starting the computation to clearing inflight. */
  predicate Flying(pc: Pc) {
    pc.Computing? || pc.Settling?
  }

  predicate Owning(pc: Pc) {
    Flying(pc) || pc.Closing?
  }

  /** What a call may return: a completed result, recent enough for the way it was obtained. */
  ghost predicate ReturnOk(ttl: int, s: State, how: How, result: Option<Result>) {
    match how
    case Fresh(at) =>
      result.Some? && result.value.ticket !in s.panicked && result.value.storedAt <= at < result.value.storedAt + ttl
    case Waited(ch) =>
      ch in s.panicked || (result.Some? && result.value.ticket >= ch && result.value.ticket !in s.panicked)
    case Computed(ch) => result.Some? && result.value.ticket == ch && ch !in s.panicked
    case Panicked(ch) => ch in s.panicked && result.None?
  }

  /** A computation that is over, one way or the other. */
  predicate Over(s: State, ch: Ticket) {
    ch < |s.closes| && s.inflight != Some(ch)
  }

  /** An open channel that this caller has to close. */
  predicate Owes(s: State, c: Caller, ch: Ticket) {
    ch < |s.closes| && ch < |s.owner| && s.owner[ch] == c && s.closes[ch] == 0
  }

  ghost predicate CallerOk(ttl: int, s: State, c: Caller, pc: Pc) {
    match pc
    case Idle => true
    case Waiting(ch) => ch < |s.closes|
    case Woken(ch) => ch < |s.closes| && s.closes[ch] > 0
    case Computing(ch) => Owes(s, c, ch) && s.inflight == Some(ch) && ch !in s.panicked
    case Settling(ch, outcome) => Owes(s, c, ch) && s.inflight == Some(ch) && (outcome.None? <==> ch in s.panicked)
    case Closing(ch, result) =>
      && Owes(s, c, ch) && s.inflight != Some(ch)
      && (if ch in s.panicked then result.None? else result.Some? && result.value.ticket == ch)
    case Returned(how, result) =>
      ReturnOk(ttl, s, how, result) && (result.Some? ==> Over(s, result.value.ticket))
  }

  ghost predicate CallersOk(ttl: int, s: State) {
    forall c :: c in s.pcs ==> CallerOk(ttl, s, c, s.pcs[c])
  }

  /** Each channel is closed at most once and is open only while its owner still has to close it. */
  ghost predicate ChannelsOk(s: State) {
    && |s.owner| == |s.closes|
    && (forall ch :: 0 <= ch < |s.closes| ==> s.closes[ch] <= 1)
    && (forall ch :: 0 <= ch < |s.closes| && s.closes[ch] == 0 ==>
          s.owner[ch] in s.pcs && Owning(s.pcs[s.owner[ch]]) && s.pcs[s.owner[ch]].ch == ch)
  }

  /** The stored value is the newest completed result; the in-flight computation is newer still. */
  ghost predicate ValueOk(ttl: int, s: State) {
    && (s.inflight.Some? ==> s.inflight.value + 1 == |s.closes| && s.closes[s.inflight.value] == 0)
    && (match s.value
        case None => s.expires.None?
        case Some(v) => Over(s, v.ticket) && v.ticket !in s.panicked && v.storedAt <= s.now
                        && s.expires == Some(v.storedAt + ttl))
    && (forall ch :: 0 <= ch < |s.closes| && s.inflight != Some(ch) && ch !in s.panicked ==>
          s.value.Some? && s.value.value.ticket >= ch)
    && (forall ch :: ch in s.panicked ==> ch < |s.closes|)
  }

  ghost predicate Inv(ttl: int, s: State) {
    ChannelsOk(s) && ValueOk(ttl, s) && CallersOk(ttl, s)
  }

  /** A caller may move anywhere its own condition allows, as long as it forgets no channel. */
  lemma MoveKeepsInv(ttl: int, s: State, c: Caller, pc: Pc)
    requires Inv(ttl, s) && CallerOk(ttl, s, c, pc)
    requires c in s.pcs && Owning(s.pcs[c]) ==> Owning(pc) && pc.ch == s.pcs[c].ch
    ensures Inv(ttl, Move(s, c, pc))
  {
    var s' := Move(s, c, pc);
    assert forall d :: d in s'.pcs && d != c ==> CallerOk(ttl, s, d, s.pcs[d]);
    assert forall d :: d in s'.pcs ==> CallerOk(ttl, s', d, s'.pcs[d]) by {
      forall d | d in s'.pcs ensures CallerOk(ttl, s', d, s'.pcs[d]) {
        SameShared(ttl, s, s', d, s'.pcs[d]);
      }
    }
  }

  lemma SameShared(ttl: int, s: State, s': State, c: Caller, pc: Pc)
    requires CallerOk(ttl, s, c, pc) && s' == s.(pcs := s'.pcs)
    ensures CallerOk(ttl, s', c, pc)
  {
  }

  lemma TickKeepsInv(ttl: int, s: State, to: int)
    requires Inv(ttl, s) && s.now <= to
    ensures Inv(ttl, s.(now := to))
  {
    var s' := s.(now := to);
    forall c | c in s'.pcs ensures CallerOk(ttl, s', c, s'.pcs[c]) {
      assert CallerOk(ttl, s, c, s.pcs[c]);
    }
  }

  /** Opening a new channel disturbs no other caller. */
  lemma StartKeepsCallers(ttl: int, s: State, c: Caller)
    requires Inv(ttl, s) && At(s, c, Idle) && s.inflight.None?
    ensures CallersOk(ttl, Started(s, c))
  {
    var s' := Started(s, c);
    forall d | d in s'.pcs ensures CallerOk(ttl, s', d, s'.pcs[d]) {
      if d != c { assert CallerOk(ttl, s, d, s.pcs[d]); }
    }
  }

  lemma StartKeepsInv(ttl: int, s: State, c: Caller)
    requires Inv(ttl, s) && At(s, c, Idle) && s.inflight.None?
    ensures Inv(ttl, Started(s, c))
  {
    StartKeepsCallers(ttl, s, c);
  }

  lemma EnterKeepsInv(ttl: int, s: State, c: Caller)
    requires Inv(ttl, s) && At(s, c, Idle)
    ensures Inv(ttl, EnterStep(s, c))
  {
    if s.expires.Some? && s.now < s.expires.value {
      MoveKeepsInv(ttl, s, c, Returned(Fresh(s.now), s.value));
    } else if s.inflight.Some? {
      MoveKeepsInv(ttl, s, c, Waiting(s.inflight.value));
    } else {
      StartKeepsInv(ttl, s, c);
    }
  }

  /** Only the caller in flight can tell that its computation panicked. */
  lemma PanicKeepsInv(ttl: int, s: State, c: Caller)
    requires Inv(ttl, s) && c in s.pcs && s.pcs[c].Computing?
    ensures Inv(ttl, Move(s.(panicked := s.panicked + {s.pcs[c].ch}), c, Settling(s.pcs[c].ch, None)))
  {
    assert CallerOk(ttl, s, c, s.pcs[c]);
    var s' := Move(s.(panicked := s.panicked + {s.pcs[c].ch}), c, Settling(s.pcs[c].ch, None));
    forall d | d in s'.pcs ensures CallerOk(ttl, s', d, s'.pcs[d]) {
      if d != c { assert CallerOk(ttl, s, d, s.pcs[d]); }
    }
  }

  lemma SettleKeepsInv(ttl: int, s: State, c: Caller)
    requires Inv(ttl, s) && c in s.pcs && s.pcs[c].Settling?
    ensures Inv(ttl, SettleStep(ttl, s, c, s.pcs[c].ch, s.pcs[c].outcome))
  {
    assert CallerOk(ttl, s, c, s.pcs[c]);
    var s' := SettleStep(ttl, s, c, s.pcs[c].ch, s.pcs[c].outcome);
    forall d | d in s'.pcs ensures CallerOk(ttl, s', d, s'.pcs[d]) {
      if d != c { assert CallerOk(ttl, s, d, s.pcs[d]); }
    }
  }

  lemma CloseKeepsInv(ttl: int, s: State, c: Caller)
    requires Inv(ttl, s) && c in s.pcs && s.pcs[c].Closing? && s.pcs[c].ch < |s.closes|
    ensures Inv(ttl, CloseStep(s, c, s.pcs[c].ch, s.pcs[c].result))
  {
    assert CallerOk(ttl, s, c, s.pcs[c]);
    var s' := CloseStep(s, c, s.pcs[c].ch, s.pcs[c].result);
    forall d | d in s'.pcs ensures CallerOk(ttl, s', d, s'.pcs[d]) {
      if d != c { assert CallerOk(ttl, s, d, s.pcs[d]); }
    }
  }

  lemma StepKeepsInv(ttl: int, s: State, a: Action)
    requires Inv(ttl, s) && Next(ttl, s, a).Some?
    ensures Inv(ttl, Next(ttl, s, a).value)
  {
    match a
    case Tick(to) => TickKeepsInv(ttl, s, to);
    case Arrive(c) => MoveKeepsInv(ttl, s, c, Idle);
    case Enter(c) => EnterKeepsInv(ttl, s, c);
    case Compute(c, entry) =>
      assert CallerOk(ttl, s, c, s.pcs[c]);
      MoveKeepsInv(ttl, s, c, Settling(s.pcs[c].ch, Some(entry)));
    case Panic(c) => PanicKeepsInv(ttl, s, c);
    case Settle(c) => SettleKeepsInv(ttl, s, c);
    case Close(c) => CloseKeepsInv(ttl, s, c);
    case Wake(c) => MoveKeepsInv(ttl, s, c, Woken(s.pcs[c].ch));
    case Read(c) =>
      assert CallerOk(ttl, s, c, s.pcs[c]);
      MoveKeepsInv(ttl, s, c, Returned(Waited(s.pcs[c].ch), s.value));
  }

  lemma {:induction false} RunKeepsInv(ttl: int, s: State, actions: seq<Action>)
    requires Inv(ttl, s) && Run(ttl, s, actions).Some?
    ensures Inv(ttl, Run(ttl, s, actions).value)
    decreases |actions|
  {
    if actions != [] {
      StepKeepsInv(ttl, s, actions[0]);
      RunKeepsInv(ttl, Next(ttl, s, actions[0]).value, actions[1..]);
    }
  }

  // ----- what holds after every run -----

  /** At most one caller is inside a computation. */
  lemma AtMostOneCompute(ttl: int, now: int, actions: seq<Action>, c: Caller, d: Caller)
    requires Run(ttl, Init(now), actions).Some?
    ensures var s := Run(ttl, Init(now), actions).value;
            c in s.pcs && d in s.pcs && Flying(s.pcs[c]) && Flying(s.pcs[d]) ==> c == d
  {
    RunKeepsInv(ttl, Init(now), actions);
  }

  /**
   No channel is ever closed twice, and a channel still open is open because
   the one caller that made it has yet to close it, whether or not its
   computation panicked.
   */
  lemma ClosedExactlyOnce(ttl: int, now: int, actions: seq<Action>, ch: Ticket)
    requires Run(ttl, Init(now), actions).Some? && ch < |Run(ttl, Init(now), actions).value.closes|
    ensures var s := Run(ttl, Init(now), actions).value;
            && s.closes[ch] <= 1
            && (s.closes[ch] == 0 <==> exists c :: c in s.pcs && Owning(s.pcs[c]) && s.pcs[c].ch == ch)
  {
    RunKeepsInv(ttl, Init(now), actions);
  }

  /** What callers get: a fresh hit is a completed result inside its time to live; a waiter's is as recent as its wait. */
  lemma ReturnsAreRight(ttl: int, now: int, actions: seq<Action>, c: Caller)
    requires Run(ttl, Init(now), actions).Some?
    ensures var s := Run(ttl, Init(now), actions).value;
            c in s.pcs && s.pcs[c].Returned? ==> ReturnOk(ttl, s, s.pcs[c].how, s.pcs[c].result)
  {
    RunKeepsInv(ttl, Init(now), actions);
  }

  /** With a non-positive time to live nothing is ever served from the cache. */
  lemma NoTtlNoHit(ttl: int, now: int, actions: seq<Action>, c: Caller)
    requires ttl <= 0 && Run(ttl, Init(now), actions).Some?
    ensures var s := Run(ttl, Init(now), actions).value;
            c in s.pcs && s.pcs[c].Returned? ==> !s.pcs[c].how.Fresh?
  {
    ReturnsAreRight(ttl, now, actions, c);
  }

  /** The steps that remain before an open channel is closed, all of them its owner's. */
  function Release(s: State, c: Caller, entry: int): seq<Action>
    requires c in s.pcs && Owning(s.pcs[c])
  {
    match s.pcs[c]
    case Computing(_) => [Compute(c, entry), Settle(c), Close(c)]
    case Settling(_, _) => [Settle(c), Close(c)]
    case Closing(_, _) => [Close(c)]
  }

  /**
   No waiter is ever wedged: after any run, the owner of an open channel can
   close it in at most three steps of its own, whatever the others do not do,
   and the waiter can then go on.
   */
  lemma NeverWedged(ttl: int, now: int, actions: seq<Action>, c: Caller, entry: int)
    requires Run(ttl, Init(now), actions).Some?
    requires var s := Run(ttl, Init(now), actions).value; c in s.pcs && s.pcs[c].Waiting?
    ensures var s := Run(ttl, Init(now), actions).value;
            var ch := s.pcs[c].ch;
            && ch < |s.closes| == |s.owner|
            && (s.closes[ch] == 0 ==>
                  var o := s.owner[ch];
                  && o in s.pcs && Owning(s.pcs[o]) && o != c
                  && var s' := Run(ttl, s, Release(s, o, entry));
                     s'.Some? && Next(ttl, s'.value, Wake(c)).Some?)
            && (s.closes[ch] > 0 ==> Next(ttl, s, Wake(c)).Some?)
  {
    RunKeepsInv(ttl, Init(now), actions);
    var s := Run(ttl, Init(now), actions).value;
    var ch := s.pcs[c].ch;
    if s.closes[ch] == 0 { ReleaseCloses(ttl, s, s.owner[ch], entry); }
  }

  /** The step a caller inside a call takes next. */
  function Own(c: Caller, pc: Pc, entry: int): Action {
    match pc
    case Idle => Enter(c)
    case Waiting(_) => Wake(c)
    case Woken(_) => Read(c)
    case Computing(_) => Compute(c, entry)
    case Settling(_, _) => Settle(c)
    case Closing(_, _) => Close(c)
    case Returned(_, _) => Arrive(c)
  }

  /** After any run every caller can take its next step, unless it waits for a channel that is still open. */
  lemma CallersProceed(ttl: int, now: int, actions: seq<Action>, c: Caller, entry: int)
    requires Run(ttl, Init(now), actions).Some?
    ensures var s := Run(ttl, Init(now), actions).value;
            if c !in s.pcs then Next(ttl, s, Arrive(c)).Some?
            else Next(ttl, s, Own(c, s.pcs[c], entry)).Some? <==>
                 !(s.pcs[c].Waiting? && s.pcs[c].ch < |s.closes| && s.closes[s.pcs[c].ch] == 0)
  {
    RunKeepsInv(ttl, Init(now), actions);
    var s := Run(ttl, Init(now), actions).value;
    if c in s.pcs { assert CallerOk(ttl, s, c, s.pcs[c]); }
  }

  lemma ReleaseCloses(ttl: int, s: State, o: Caller, entry: int)
    requires o in s.pcs && Owning(s.pcs[o]) && Owes(s, o, s.pcs[o].ch)
    ensures var s' := Run(ttl, s, Release(s, o, entry));
            && s'.Some? && s.pcs[o].ch < |s'.value.closes| && s'.value.closes[s.pcs[o].ch] == 1
            && (forall c :: c in s.pcs && c != o ==> c in s'.value.pcs && s'.value.pcs[c] == s.pcs[c])
  {
    match s.pcs[o]
    case Computing(ch) =>
      var s1 := Move(s, o, Settling(ch, Some(entry)));
      RunOfSettling(ttl, s1, o);
      assert [Compute(o, entry), Settle(o), Close(o)][1..] == [Settle(o), Close(o)];
    case Settling(ch, outcome) => RunOfSettling(ttl, s, o);
    case Closing(ch, outcome) =>
  }

  lemma RunOfSettling(ttl: int, s: State, o: Caller)
    requires o in s.pcs && s.pcs[o].Settling? && s.pcs[o].ch < |s.closes| && s.closes[s.pcs[o].ch] == 0
    ensures var s' := Run(ttl, s, [Settle(o), Close(o)]);
            && s'.Some? && s.pcs[o].ch < |s'.value.closes| && s'.value.closes[s.pcs[o].ch] == 1
            && (forall c :: c in s.pcs && c != o ==> c in s'.value.pcs && s'.value.pcs[c] == s.pcs[c])
  {
    assert [Settle(o), Close(o)][1..] == [Close(o)];
    var s1 := SettleStep(ttl, s, o, s.pcs[o].ch, s.pcs[o].outcome);
    assert Run(ttl, s1, [Close(o)]) == Next(ttl, s1, Close(o));
  }

  // ----- what a returned result is -----

  lemma {:induction false} RunSnoc(ttl: int, s: State, actions: seq<Action>, a: Action)
    requires Run(ttl, s, actions + [a]).Some?
    ensures Run(ttl, s, actions).Some? && Run(ttl, s, actions + [a]) == Next(ttl, Run(ttl, s, actions).value, a)
    decreases |actions|
  {
    if actions == [] {
      assert [] + [a] == [a] && [a][1..] == [];
    } else {
      assert (actions + [a])[0] == actions[0] && (actions + [a])[1..] == actions[1..] + [a];
      RunSnoc(ttl, Next(ttl, s, actions[0]).value, actions[1..], a);
    }
  }

  /** The outcome a caller has computed and not stored yet. */
  ghost predicate Pends(s: State, ch: Ticket, entry: int) {
    exists c :: c in s.pcs && s.pcs[c] == Settling(ch, Some(entry))
  }

  function Held(pc: Pc): Option<Result> {
    match pc
    case Closing(_, result) => result
    case Returned(_, result) => result
    case _ => None
  }

  /** A result that is stored, or on its way to a caller or with one. */
  ghost predicate Holds(s: State, r: Result) {
    s.value == Some(r) || exists c :: c in s.pcs && Held(s.pcs[c]) == Some(r)
  }

  /** An outcome appears only when the caller in flight computes it. */
  lemma PendsFrom(ttl: int, s: State, a: Action, ch: Ticket, entry: int)
    requires Next(ttl, s, a).Some? && Pends(Next(ttl, s, a).value, ch, entry)
    ensures Pends(s, ch, entry) || (a.Compute? && a.entry == entry && At(s, a.caller, Computing(ch)))
  {
    var s' := Next(ttl, s, a).value;
    var c :| c in s'.pcs && s'.pcs[c] == Settling(ch, Some(entry));
    if !(c in s.pcs && s.pcs[c] == s'.pcs[c]) { assert a.Compute? && a.caller == c; }
  }

  /** A result appears only when a computed outcome is stored, with the time of that moment. */
  lemma HoldsFrom(ttl: int, s: State, a: Action, r: Result)
    requires Next(ttl, s, a).Some? && Holds(Next(ttl, s, a).value, r)
    ensures Holds(s, r) || (a.Settle? && At(s, a.caller, Settling(r.ticket, Some(r.entry))) && r.storedAt == s.now)
  {
    var s' := Next(ttl, s, a).value;
    if s'.value != Some(r) {
      var c :| c in s'.pcs && Held(s'.pcs[c]) == Some(r);
      if c in s.pcs && Held(s.pcs[c]) == Some(r) {
      } else {
        HeldFrom(ttl, s, a, c, r);
      }
    }
  }

  lemma HeldFrom(ttl: int, s: State, a: Action, c: Caller, r: Result)
    requires Next(ttl, s, a).Some?
    requires var s' := Next(ttl, s, a).value; c in s'.pcs && Held(s'.pcs[c]) == Some(r)
    requires !(c in s.pcs && Held(s.pcs[c]) == Some(r))
    ensures s.value == Some(r) || (a.Settle? && At(s, a.caller, Settling(r.ticket, Some(r.entry))) && r.storedAt == s.now)
  {
  }

  /** Action i of the run is the computation of ticket ch, by its owner in flight. */
  ghost predicate ComputesAt(ttl: int, now: int, actions: seq<Action>, i: nat, ch: Ticket, entry: int) {
    && i < |actions| && actions[i].Compute? && actions[i].entry == entry
    && var s := Run(ttl, Init(now), actions[..i]); s.Some? && At(s.value, actions[i].caller, Computing(ch))
  }

  /** Action j of the run stores the result. */
  ghost predicate StoresAt(ttl: int, now: int, actions: seq<Action>, j: nat, r: Result) {
    && j < |actions| && actions[j].Settle?
    && var s := Run(ttl, Init(now), actions[..j]);
       s.Some? && At(s.value, actions[j].caller, Settling(r.ticket, Some(r.entry))) && s.value.now == r.storedAt
  }

  lemma {:induction false} PendingWasComputed(ttl: int, now: int, actions: seq<Action>, ch: Ticket, entry: int) returns (i: nat)
    requires Run(ttl, Init(now), actions).Some? && Pends(Run(ttl, Init(now), actions).value, ch, entry)
    ensures ComputesAt(ttl, now, actions, i, ch, entry)
    decreases |actions|
  {
    if actions == [] {
      assert false;
    } else {
      var before, a := actions[..|actions| - 1], actions[|actions| - 1];
      assert actions == before + [a];
      RunSnoc(ttl, Init(now), before, a);
      PendsFrom(ttl, Run(ttl, Init(now), before).value, a, ch, entry);
      if Pends(Run(ttl, Init(now), before).value, ch, entry) {
        i := PendingWasComputed(ttl, now, before, ch, entry);
        assert before[..i] == actions[..i];
      } else {
        i := |before|;
      }
    }
  }

  lemma {:induction false} HeldWasStored(ttl: int, now: int, actions: seq<Action>, r: Result) returns (j: nat)
    requires Run(ttl, Init(now), actions).Some? && Holds(Run(ttl, Init(now), actions).value, r)
    ensures StoresAt(ttl, now, actions, j, r)
    decreases |actions|
  {
    if actions == [] {
      assert false;
    } else {
      var before, a := actions[..|actions| - 1], actions[|actions| - 1];
      assert actions == before + [a];
      RunSnoc(ttl, Init(now), before, a);
      HoldsFrom(ttl, Run(ttl, Init(now), before).value, a, r);
      if Holds(Run(ttl, Init(now), before).value, r) {
        j := HeldWasStored(ttl, now, before, r);
        assert before[..j] == actions[..j];
      } else {
        j := |before|;
      }
    }
  }

  /**
   A returned result is what a caller computed under that ticket earlier in the
   run, stored later and stamped with the time of storing.
   */
  lemma ReturnsWhatWasComputed(ttl: int, now: int, actions: seq<Action>, c: Caller) returns (i: nat, j: nat)
    requires Run(ttl, Init(now), actions).Some?
    requires var s := Run(ttl, Init(now), actions).value; c in s.pcs && s.pcs[c].Returned? && s.pcs[c].result.Some?
    ensures var r := Run(ttl, Init(now), actions).value.pcs[c].result.value;
            i < j && ComputesAt(ttl, now, actions, i, r.ticket, r.entry) && StoresAt(ttl, now, actions, j, r)
  {
    var r := Run(ttl, Init(now), actions).value.pcs[c].result.value;
    assert Held(Run(ttl, Init(now), actions).value.pcs[c]) == Some(r);
    j := HeldWasStored(ttl, now, actions, r);
    assert Pends(Run(ttl, Init(now), actions[..j]).value, r.ticket, r.entry);
    i := PendingWasComputed(ttl, now, actions[..j], r.ticket, r.entry);
    assert actions[..j][..i] == actions[..i];
  }

  // ----- whose computation it was -----

  /** A computation that has been left is never entered again, and a ticket keeps its owner. */
  ghost predicate Left(s: State, ch: Ticket) {
    ch < |s.closes| && forall c :: c in s.pcs ==> s.pcs[c] != Computing(ch)
  }

  lemma LeftStays(ttl: int, s: State, a: Action, ch: Ticket)
    requires Left(s, ch) && Next(ttl, s, a).Some?
    ensures Left(Next(ttl, s, a).value, ch)
  {
  }

  lemma OwnersStay(ttl: int, s: State, a: Action)
    requires Next(ttl, s, a).Some?
    ensures s.owner <= Next(ttl, s, a).value.owner
  {
  }

  lemma {:induction false} RunStays(ttl: int, s: State, actions: seq<Action>, ch: Ticket)
    requires Run(ttl, s, actions).Some?
    ensures s.owner <= Run(ttl, s, actions).value.owner
    ensures Left(s, ch) ==> Left(Run(ttl, s, actions).value, ch)
    decreases |actions|
  {
    if actions != [] {
      var s1 := Next(ttl, s, actions[0]).value;
      OwnersStay(ttl, s, actions[0]);
      if Left(s, ch) { LeftStays(ttl, s, actions[0], ch); }
      RunStays(ttl, s1, actions[1..], ch);
    }
  }

  lemma {:induction false} RunSplits(ttl: int, s: State, a: seq<Action>, b: seq<Action>)
    requires Run(ttl, s, a + b).Some?
    ensures Run(ttl, s, a).Some? && Run(ttl, s, a + b) == Run(ttl, Run(ttl, s, a).value, b)
    decreases |a|
  {
    if a == [] {
      assert a + b == b;
    } else {
      assert (a + b)[0] == a[0] && (a + b)[1..] == a[1..] + b;
      RunSplits(ttl, Next(ttl, s, a[0]).value, a[1..], b);
    }
  }

  /** After a computation its ticket is left. */
  lemma ComputeLeaves(ttl: int, now: int, actions: seq<Action>, i: nat, ch: Ticket, entry: int)
    requires Run(ttl, Init(now), actions).Some? && ComputesAt(ttl, now, actions, i, ch, entry)
    ensures Run(ttl, Init(now), actions[..i + 1]).Some? && Left(Run(ttl, Init(now), actions[..i + 1]).value, ch)
    ensures var s := Run(ttl, Init(now), actions[..i]).value; ch < |s.owner| && s.owner[ch] == actions[i].caller
  {
    assert actions == actions[..i + 1] + actions[i + 1..];
    RunSplits(ttl, Init(now), actions[..i + 1], actions[i + 1..]);
    assert actions[..i + 1] == actions[..i] + [actions[i]];
    RunSnoc(ttl, Init(now), actions[..i], actions[i]);
    var s := Run(ttl, Init(now), actions[..i]).value;
    RunKeepsInv(ttl, Init(now), actions[..i]);
    forall c | c in s.pcs && s.pcs[c] == Computing(ch) ensures c == actions[i].caller && s.owner[ch] == c {
      assert CallerOk(ttl, s, c, s.pcs[c]) && CallerOk(ttl, s, actions[i].caller, Computing(ch));
    }
  }

  /** No ticket is computed twice, so the entry of a ticket is well determined, and its owner is who computed it. */
  lemma ComputedOnce(ttl: int, now: int, actions: seq<Action>, ch: Ticket, i: nat, x: int, k: nat, y: int)
    requires Run(ttl, Init(now), actions).Some?
    requires ComputesAt(ttl, now, actions, i, ch, x) && ComputesAt(ttl, now, actions, k, ch, y)
    ensures i == k && x == y
    ensures var s := Run(ttl, Init(now), actions).value; ch < |s.owner| && s.owner[ch] == actions[i].caller
  {
    if i < k { NotComputedAgain(ttl, now, actions, ch, i, x, k, y); }
    if k < i { NotComputedAgain(ttl, now, actions, ch, k, y, i, x); }
    ComputeLeaves(ttl, now, actions, i, ch, x);
    assert actions == actions[..i] + actions[i..];
    RunSplits(ttl, Init(now), actions[..i], actions[i..]);
    RunStays(ttl, Run(ttl, Init(now), actions[..i]).value, actions[i..], ch);
  }

  lemma NotComputedAgain(ttl: int, now: int, actions: seq<Action>, ch: Ticket, i: nat, x: int, k: nat, y: int)
    requires Run(ttl, Init(now), actions).Some? && i < k < |actions| && ComputesAt(ttl, now, actions, i, ch, x)
    ensures !ComputesAt(ttl, now, actions, k, ch, y)
  {
    ComputeLeaves(ttl, now, actions, i, ch, x);
    assert actions[..k] == actions[..i + 1] + actions[i + 1..k];
    assert actions == actions[..k] + actions[k..];
    RunSplits(ttl, Init(now), actions[..k], actions[k..]);
    RunSplits(ttl, Init(now), actions[..i + 1], actions[i + 1..k]);
    RunStays(ttl, Run(ttl, Init(now), actions[..i + 1]).value, actions[i + 1..k], ch);
  }

  /** A caller that returns from its own computation returns what it computed itself. */
  ghost predicate OwnReturns(s: State) {
    forall c :: c in s.pcs && s.pcs[c].Returned? && s.pcs[c].how.Computed? ==>
      s.pcs[c].how.ch < |s.owner| && s.owner[s.pcs[c].how.ch] == c
  }

  lemma {:induction false} RunOwnReturns(ttl: int, s: State, actions: seq<Action>)
    requires Inv(ttl, s) && OwnReturns(s) && Run(ttl, s, actions).Some?
    ensures OwnReturns(Run(ttl, s, actions).value)
    decreases |actions|
  {
    if actions != [] {
      StepKeepsInv(ttl, s, actions[0]);
      StepOwnReturns(ttl, s, actions[0]);
      RunOwnReturns(ttl, Next(ttl, s, actions[0]).value, actions[1..]);
    }
  }

  lemma StepOwnReturns(ttl: int, s: State, a: Action)
    requires Inv(ttl, s) && OwnReturns(s) && Next(ttl, s, a).Some?
    ensures OwnReturns(Next(ttl, s, a).value)
  {
    OwnersStay(ttl, s, a);
    if a.Close? { assert CallerOk(ttl, s, a.caller, s.pcs[a.caller]); }
  }

  lemma OwnResultIsOwn(ttl: int, now: int, actions: seq<Action>, c: Caller) returns (i: nat)
    requires Run(ttl, Init(now), actions).Some?
    requires var s := Run(ttl, Init(now), actions).value; c in s.pcs && s.pcs[c].Returned? && s.pcs[c].how.Computed?
    ensures var s := Run(ttl, Init(now), actions).value;
            && s.pcs[c].result.Some? && i < |actions| && actions[i] == Compute(c, s.pcs[c].result.value.entry)
            && ComputesAt(ttl, now, actions, i, s.pcs[c].how.ch, s.pcs[c].result.value.entry)
  {
    var s := Run(ttl, Init(now), actions).value;
    ReturnsAreRight(ttl, now, actions, c);
    var j;
    i, j := ReturnsWhatWasComputed(ttl, now, actions, c);
    RunOwnReturns(ttl, Init(now), actions);
    var r := s.pcs[c].result.value;
    ComputedOnce(ttl, now, actions, r.ticket, i, r.entry, i, r.entry);
  }

  // ----- what a call does on entering -----

  /**
   After any run: while a stored result is inside its time to live a call
   returns it and starts nothing; otherwise it waits for the computation in
   flight, and only without one starts its own.
   */
  lemma EnterDecides(ttl: int, now: int, actions: seq<Action>, c: Caller)
    requires Run(ttl, Init(now), actions).Some? && At(Run(ttl, Init(now), actions).value, c, Idle)
    ensures var s := Run(ttl, Init(now), actions).value;
            var s' := Next(ttl, s, Enter(c));
            && s'.Some? && c in s'.value.pcs && s'.value.value == s.value && s'.value.expires == s.expires
            && if s.value.Some? && s.now < s.value.value.storedAt + ttl then
                 s'.value == s.(pcs := s.pcs[c := Returned(Fresh(s.now), s.value)])
               else if exists d :: d in s.pcs && Flying(s.pcs[d]) then
                 && s'.value == s.(pcs := s'.value.pcs) && s'.value.pcs[c].Waiting?
                 && exists d :: d in s.pcs && Flying(s.pcs[d]) && s.pcs[d].ch == s'.value.pcs[c].ch
               else s'.value.pcs[c] == Computing(|s.closes|) && s'.value.owner == s.owner + [c]
  {
    RunKeepsInv(ttl, Init(now), actions);
    var s := Run(ttl, Init(now), actions).value;
    FlightIsFlown(ttl, s);
  }

  /** A computation is in flight exactly when some caller is inside it. */
  lemma FlightIsFlown(ttl: int, s: State)
    requires Inv(ttl, s)
    ensures s.inflight.Some? <==> exists d :: d in s.pcs && Flying(s.pcs[d])
    ensures forall d :: d in s.pcs && Flying(s.pcs[d]) ==> s.inflight == Some(s.pcs[d].ch)
  {
    forall d | d in s.pcs && Flying(s.pcs[d]) ensures s.inflight == Some(s.pcs[d].ch) {
      assert CallerOk(ttl, s, d, s.pcs[d]);
    }
    if s.inflight.Some? {
      var o := s.owner[s.inflight.value];
      assert CallerOk(ttl, s, o, s.pcs[o]);
      assert Flying(s.pcs[o]);
    }
  }
}
