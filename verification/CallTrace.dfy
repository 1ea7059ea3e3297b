/** Searching a transaction's call trace depth first with an explicit stack. */
module CallTrace {
  import opened Prelude

  const CALL_TYPE := "CALL"

  datatype Call = Call(kind: string, to: int, reverted: bool, input: seq<int>, calls: seq<Call>)

  datatype Answer = Yes | No | Fails

  /** Only a frame of type CALL to the target is put to the callback; without a callback it is accepted. */
  function Judge(c: Call, target: int, callback: Option<Call -> Answer>): Answer {
    if c.to == target && c.kind == CALL_TYPE then
      if callback.Some? then callback.value(c) else Yes
    else No
  }

  // ----- the recursive order -----

  /** Preorder without reverted frames, a frame's calls from last to first. */
  function Visited(c: Call): seq<Call> {
    if c.reverted then [] else [c] + VisitedBack(c.calls)
  }

  function VisitedBack(cs: seq<Call>): seq<Call> {
    if cs == [] then [] else Visited(cs[|cs| - 1]) + VisitedBack(cs[..|cs| - 1])
  }

  function Size(c: Call): nat {
    1 + SizeAll(c.calls)
  }

  function SizeAll(cs: seq<Call>): nat {
    if cs == [] then 0 else Size(cs[|cs| - 1]) + SizeAll(cs[..|cs| - 1])
  }

  function Live(cs: seq<Call>): seq<Call> {
    if cs == [] then [] else Live(cs[..|cs| - 1]) + if cs[|cs| - 1].reverted then [] else [cs[|cs| - 1]]
  }

  /** What lies on top of the stack is visited before what lies below. */
  lemma {:induction false} StackSplits(below: seq<Call>, above: seq<Call>)
    ensures VisitedBack(below + above) == VisitedBack(above) + VisitedBack(below)
    decreases |above|
  {
    if above == [] {
      assert below + above == below;
    } else {
      var rest, top := above[..|above| - 1], above[|above| - 1];
      StackSplits(below, rest);
      PopConcat(below, above);
      ConcatIsAssociative(Visited(top), VisitedBack(rest), VisitedBack(below));
    }
  }

  lemma PopConcat(below: seq<Call>, above: seq<Call>)
    requires above != []
    ensures var all := below + above;
            all[|all| - 1] == above[|above| - 1] && all[..|all| - 1] == below + above[..|above| - 1]
  {
  }

  lemma {:induction false} SizeSplits(below: seq<Call>, above: seq<Call>)
    ensures SizeAll(below + above) == SizeAll(above) + SizeAll(below)
    decreases |above|
  {
    if above == [] {
      assert below + above == below;
    } else {
      SizeSplits(below, above[..|above| - 1]);
      PopConcat(below, above);
    }
  }

  /** Dropping reverted calls before pushing them changes nothing. */
  lemma {:induction false} LiveIsEnough(cs: seq<Call>)
    ensures VisitedBack(Live(cs)) == VisitedBack(cs) && SizeAll(Live(cs)) <= SizeAll(cs)
    decreases |cs|
  {
    if cs != [] {
      var rest, last := cs[..|cs| - 1], cs[|cs| - 1];
      LiveIsEnough(rest);
      if last.reverted {
        assert Live(rest) + [] == Live(rest);
      } else {
        assert (Live(rest) + [last])[..|Live(rest)|] == Live(rest);
      }
    }
  }

  // ----- the search -----

  datatype Outcome = Found(calls: seq<Call>) | NotFound | Failed

  predicate Accepts(c: Call, target: int, callback: Option<Call -> Answer>) {
    Judge(c, target, callback).Yes?
  }

  function Accepted(cs: seq<Call>, target: int, callback: Option<Call -> Answer>): seq<Call> {
    if cs == [] then []
    else Accepted(cs[..|cs| - 1], target, callback)
         + if Accepts(cs[|cs| - 1], target, callback) then [cs[|cs| - 1]] else []
  }

  /** A frame that calls the target, by a plain call. */
  predicate Concerns(c: Call, target: int) {
    c.to == target && c.kind == "CALL"
  }

  /** The accepted frames are the calls to the target the callback says yes to, all of them without a callback. */
  lemma {:induction false} AcceptedAre(cs: seq<Call>, target: int, callback: Option<Call -> Answer>)
    ensures forall c :: c in Accepted(cs, target, callback) <==>
              c in cs && Concerns(c, target) && (callback.None? || callback.value(c).Yes?)
    decreases |cs|
  {
    if cs != [] {
      AcceptedAre(cs[..|cs| - 1], target, callback);
      assert cs == cs[..|cs| - 1] + [cs[|cs| - 1]];
    }
  }

  /**
   The loop over the stack finds the accepted frames of the recursive order. It
   fails exactly when the callback fails on some visited frame, and reports
   NotFound exactly when it does not fail and no frame is accepted.
   */
  method FindCall(root: Call, target: int, callback: Option<Call -> Answer>) returns (r: Outcome)
    ensures r.Failed? <==> exists c :: c in Visited(root) && Judge(c, target, callback).Fails?
    ensures !r.Failed? ==>
              var all := Accepted(Visited(root), target, callback);
              r == if all == [] then NotFound else Found(all)
    ensures r.Failed? <==> exists c :: c in Visited(root) && Concerns(c, target) && callback.Some? && callback.value(c).Fails?
    ensures r.Found? ==> forall c :: c in r.calls <==>
              c in Visited(root) && Concerns(c, target) && (callback.None? || callback.value(c).Yes?)
    ensures r.NotFound? ==> forall c :: c in Visited(root) && Concerns(c, target) ==> callback.Some? && callback.value(c).No?
  {
    AcceptedAre(Visited(root), target, callback);
    var stack := [root];
    var matching: seq<Call> := [];
    ghost var seen: seq<Call> := [];
    assert VisitedBack([root]) == Visited(root) by { assert [root][..0] == []; }
    while stack != []
      invariant seen + VisitedBack(stack) == Visited(root)
      invariant matching == Accepted(seen, target, callback)
      invariant forall c :: c in seen ==> !Judge(c, target, callback).Fails?
      decreases SizeAll(stack)
    {
      var current := stack[|stack| - 1];
      ghost var before := stack;
      stack := stack[..|stack| - 1];
      PopVisits(before);
      if current.reverted { continue; }
      SeenNext(seen, before, Visited(root));
      var answer := Judge(current, target, callback);
      if answer.Fails? { return Failed; }
      if answer.Yes? { matching := matching + [current]; }
      AcceptedNext(seen, current, target, callback);
      seen := seen + [current];
      stack := PushLive(stack, current.calls);
    }
    assert seen == Visited(root);
    if matching != [] { return Found(matching); }
    return NotFound;
  }

  lemma AcceptedNext(seen: seq<Call>, c: Call, target: int, callback: Option<Call -> Answer>)
    ensures Accepted(seen + [c], target, callback) ==
            Accepted(seen, target, callback) + if Accepts(c, target, callback) then [c] else []
  {
    assert (seen + [c])[..|seen|] == seen;
  }

  /** Popping a reverted frame visits nothing; popping any other visits it and then what it pushes. */
  lemma PopVisits(stack: seq<Call>)
    requires stack != []
    ensures var current, rest := stack[|stack| - 1], stack[..|stack| - 1];
            if current.reverted then VisitedBack(stack) == VisitedBack(rest) && SizeAll(rest) < SizeAll(stack)
            else VisitedBack(stack) == [current] + VisitedBack(rest + Live(current.calls))
                 && SizeAll(rest + Live(current.calls)) < SizeAll(stack)
  {
    var current, rest := stack[|stack| - 1], stack[..|stack| - 1];
    if !current.reverted {
      StackSplits(rest, Live(current.calls));
      SizeSplits(rest, Live(current.calls));
      LiveIsEnough(current.calls);
      ConcatIsAssociative([current], VisitedBack(current.calls), VisitedBack(rest));
    }
  }

  lemma SeenNext(seen: seq<Call>, stack: seq<Call>, all: seq<Call>)
    requires stack != [] && !stack[|stack| - 1].reverted && seen + VisitedBack(stack) == all
    ensures var current, rest := stack[|stack| - 1], stack[..|stack| - 1];
            seen + [current] + VisitedBack(rest + Live(current.calls)) == all && current in all
  {
    PopVisits(stack);
    var current, rest := stack[|stack| - 1], stack[..|stack| - 1];
    ConcatIsAssociative(seen, [current], VisitedBack(rest + Live(current.calls)));
    assert all[|seen|] == current;
  }

  method PushLive(stack: seq<Call>, calls: seq<Call>) returns (pushed: seq<Call>)
    ensures pushed == stack + Live(calls)
  {
    pushed := stack;
    for i := 0 to |calls|
      invariant pushed == stack + Live(calls[..i])
    {
      assert calls[..i + 1][..i] == calls[..i];
      if !calls[i].reverted { pushed := pushed + [calls[i]]; }
    }
    assert calls[..|calls|] == calls;
  }

  // ----- what the recursive order is -----

  type Path = seq<nat>

  /** A path names a frame all of whose ancestors, and itself, did not revert. */
  predicate Reaches(c: Call, p: Path)
    decreases |p|
  {
    !c.reverted && (p == [] || (p[0] < |c.calls| && Reaches(c.calls[p[0]], p[1..])))
  }

  function At(c: Call, p: Path): Call
    requires Reaches(c, p)
    decreases |p|
  {
    if p == [] then c else At(c.calls[p[0]], p[1..])
  }

  /** Preorder with later siblings first. */
  predicate Before(p: Path, q: Path)
    decreases |p|
  {
    q != [] && (p == [] || p[0] > q[0] || (p[0] == q[0] && Before(p[1..], q[1..])))
  }

  function Under(k: nat, ps: seq<Path>): seq<Path> {
    if ps == [] then [] else Under(k, ps[..|ps| - 1]) + [[k] + ps[|ps| - 1]]
  }

  function Paths(c: Call): seq<Path> {
    if c.reverted then [] else [[]] + PathsBack(c.calls)
  }

  function PathsBack(cs: seq<Call>): seq<Path> {
    if cs == [] then [] else Under(|cs| - 1, Paths(cs[|cs| - 1])) + PathsBack(cs[..|cs| - 1])
  }

  lemma {:induction false} UnderAt(k: nat, ps: seq<Path>)
    ensures |Under(k, ps)| == |ps| && forall i :: 0 <= i < |ps| ==> Under(k, ps)[i] == [k] + ps[i]
    decreases |ps|
  {
    if ps != [] { UnderAt(k, ps[..|ps| - 1]); }
  }

  ghost predicate Sorted(ps: seq<Path>) {
    forall i, j :: 0 <= i < j < |ps| ==> Before(ps[i], ps[j])
  }

  ghost predicate BackOk(cs: seq<Call>, ps: seq<Path>, frames: seq<Call>) {
    && |ps| == |frames|
    && (forall i :: 0 <= i < |ps| ==> ps[i] != [] && ps[i][0] < |cs| && Reaches(cs[ps[i][0]], ps[i][1..])
                                      && frames[i] == At(cs[ps[i][0]], ps[i][1..]))
    && Sorted(ps)
    && (forall k: nat, q: Path :: k < |cs| && Reaches(cs[k], q) ==> [k] + q in ps)
  }

  /** The visited frames, in order, are those of the paths in order; a path is listed exactly when it reaches a frame. */
  ghost predicate PathsOk(c: Call, ps: seq<Path>, frames: seq<Call>) {
    && |ps| == |frames|
    && (forall i :: 0 <= i < |ps| ==> Reaches(c, ps[i]) && frames[i] == At(c, ps[i]))
    && Sorted(ps)
    && (forall q: Path :: Reaches(c, q) ==> q in ps)
  }

  lemma {:induction false} VisitedIsExact(c: Call)
    ensures PathsOk(c, Paths(c), Visited(c))
    decreases c
  {
    if !c.reverted {
      BackIsExact(c.calls);
      RootFirst(c, PathsBack(c.calls), VisitedBack(c.calls));
    }
  }

  lemma {:induction false} BackIsExact(cs: seq<Call>)
    ensures BackOk(cs, PathsBack(cs), VisitedBack(cs))
    decreases cs
  {
    if cs != [] {
      var rest, last := cs[..|cs| - 1], cs[|cs| - 1];
      BackIsExact(rest);
      VisitedIsExact(last);
      LastFirst(cs, Paths(last), Visited(last), PathsBack(rest), VisitedBack(rest));
    }
  }

  lemma RootFirst(c: Call, ps: seq<Path>, frames: seq<Call>)
    requires !c.reverted && BackOk(c.calls, ps, frames)
    ensures PathsOk(c, [[]] + ps, [c] + frames)
  {
    forall q: Path | Reaches(c, q) ensures q in [[]] + ps {
      if q != [] { assert q == [q[0]] + q[1..]; }
    }
  }

  lemma LastFirst(cs: seq<Call>, ps: seq<Path>, frames: seq<Call>, restPs: seq<Path>, restFrames: seq<Call>)
    requires cs != [] && PathsOk(cs[|cs| - 1], ps, frames) && BackOk(cs[..|cs| - 1], restPs, restFrames)
    ensures BackOk(cs, Under(|cs| - 1, ps) + restPs, frames + restFrames)
  {
    var k := |cs| - 1;
    UnderAt(k, ps);
    forall i | 0 <= i < |ps|
      ensures Under(k, ps)[i] != [] && Under(k, ps)[i][0] == k && Under(k, ps)[i][1..] == ps[i] {}
    LastFirstFrames(cs, ps, frames, restPs, restFrames);
    LastFirstSorted(cs, ps, frames, restPs, restFrames);
    LastFirstComplete(cs, ps, frames, restPs, restFrames);
  }

  lemma LastFirstFrames(cs: seq<Call>, ps: seq<Path>, frames: seq<Call>, restPs: seq<Path>, restFrames: seq<Call>)
    requires cs != [] && PathsOk(cs[|cs| - 1], ps, frames) && BackOk(cs[..|cs| - 1], restPs, restFrames)
    ensures var all := Under(|cs| - 1, ps) + restPs;
            && |all| == |frames + restFrames|
            && forall i :: 0 <= i < |all| ==> all[i] != [] && all[i][0] < |cs| && Reaches(cs[all[i][0]], all[i][1..])
                                              && (frames + restFrames)[i] == At(cs[all[i][0]], all[i][1..])
  {
    var k := |cs| - 1;
    var all := Under(k, ps) + restPs;
    UnderAt(k, ps);
    forall i | 0 <= i < |all|
      ensures all[i] != [] && all[i][0] < |cs| && Reaches(cs[all[i][0]], all[i][1..])
              && (frames + restFrames)[i] == At(cs[all[i][0]], all[i][1..])
    {
      if i < |ps| {
        assert all[i] == [k] + ps[i] && all[i][1..] == ps[i];
      } else {
        assert all[i] == restPs[i - |ps|];
        assert cs[..k][all[i][0]] == cs[all[i][0]];
      }
    }
  }

  lemma LastFirstSorted(cs: seq<Call>, ps: seq<Path>, frames: seq<Call>, restPs: seq<Path>, restFrames: seq<Call>)
    requires cs != [] && PathsOk(cs[|cs| - 1], ps, frames) && BackOk(cs[..|cs| - 1], restPs, restFrames)
    ensures Sorted(Under(|cs| - 1, ps) + restPs)
  {
    var k := |cs| - 1;
    var all := Under(k, ps) + restPs;
    UnderAt(k, ps);
    forall i, j | 0 <= i < j < |all| ensures Before(all[i], all[j]) {
      if j < |ps| {
        assert all[i] == [k] + ps[i] && all[j] == [k] + ps[j];
        assert all[i][1..] == ps[i] && all[j][1..] == ps[j];
      } else if i < |ps| {
        assert all[i][0] == k && all[j] == restPs[j - |ps|];
      } else {
        assert all[i] == restPs[i - |ps|] && all[j] == restPs[j - |ps|];
      }
    }
  }

  lemma LastFirstComplete(cs: seq<Call>, ps: seq<Path>, frames: seq<Call>, restPs: seq<Path>, restFrames: seq<Call>)
    requires cs != [] && PathsOk(cs[|cs| - 1], ps, frames) && BackOk(cs[..|cs| - 1], restPs, restFrames)
    ensures forall j: nat, q: Path :: j < |cs| && Reaches(cs[j], q) ==> [j] + q in Under(|cs| - 1, ps) + restPs
  {
    var k := |cs| - 1;
    UnderAt(k, ps);
    forall j: nat, q: Path | j < |cs| && Reaches(cs[j], q) ensures [j] + q in Under(k, ps) + restPs {
      if j == k {
        var i :| 0 <= i < |ps| && ps[i] == q;
        assert Under(k, ps)[i] == [j] + q;
      } else {
        assert cs[..k][j] == cs[j];
        assert [j] + q in restPs;
      }
    }
  }

  /** The order is strict, so no frame is listed twice. */
  lemma {:induction false} BeforeIsStrict(p: Path)
    ensures !Before(p, p)
    decreases |p|
  {
    if p != [] { BeforeIsStrict(p[1..]); }
  }
}
