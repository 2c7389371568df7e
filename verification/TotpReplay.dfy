/**
 Replay protection over whole runs. A request reads the last accepted step, checks a code against it,
 and advances it with a conditional update, with any number of other requests in between and a clock
 that may go back.
 */
module TotpReplay {
  import opened Options
  import opened Totp

  // ---------------------------------------------------------------------------------------
  // One enrolment
  // ---------------------------------------------------------------------------------------

  class Enrolment {
    var lastStep: Option<int>

    /** The conditional update: how many rows it changed. */
    method AdvanceStep(step: int) returns (rows: nat)
      modifies this
      ensures rows == if Unused(step, old(lastStep)) then 1 else 0
      ensures lastStep == if Unused(step, old(lastStep)) then Some(step) else old(lastStep)
    {
      if lastStep.None? || lastStep.value < step {
        lastStep := Some(step);
        return 1;
      }
      return 0;
    }

    /** A request that nothing comes between: it succeeds exactly when the code has a step left to give. */
    method VerifyTotp(hmac: Hmac, secret: seq<Byte>, code: string, at: Time) returns (ok: bool)
      modifies this
      ensures ok <==> exists step :: Accepts(hmac, secret, code, at, old(lastStep), step)
      ensures ok ==> lastStep.Some? && Accepts(hmac, secret, code, at, old(lastStep), lastStep.value)
      ensures ok ==> forall step | step < lastStep.value :: !Accepts(hmac, secret, code, at, old(lastStep), step)
      ensures !ok ==> lastStep == old(lastStep)
    {
      var step := Verify(hmac, secret, code, at, lastStep);
      if step.None? {
        return false;
      }
      var rows := AdvanceStep(step.value);
      ok := rows > 0;
    }
  }

  // ---------------------------------------------------------------------------------------
  // Requests side by side
  // ---------------------------------------------------------------------------------------

  /** Where a request has got to. */
  datatype Request = Opened(floor: Option<int>) | Matched(step: int, at: Time)

  datatype Acceptance = Acceptance(step: int, at: Time)

  datatype State = State(lastStep: Option<int>, requests: map<nat, Request>, accepted: seq<Acceptance>)

  datatype Event =
    | Open(id: nat)
    | Match(id: nat, code: string, at: Time, step: int)
    | Refuse(id: nat)
    | Advance(id: nat)

  predicate Enabled(hmac: Hmac, secret: seq<Byte>, s: State, e: Event) {
    match e
    case Open(id) => id !in s.requests
    case Match(id, code, at, step) =>
      id in s.requests && s.requests[id].Opened? && Accepts(hmac, secret, code, at, s.requests[id].floor, step)
    case Refuse(id) => id in s.requests && s.requests[id].Opened?
    case Advance(id) => id in s.requests && s.requests[id].Matched?
  }

  function Next(hmac: Hmac, secret: seq<Byte>, s: State, e: Event): State
    requires Enabled(hmac, secret, s, e)
  {
    match e
    case Open(id) => s.(requests := s.requests[id := Opened(s.lastStep)])
    case Match(id, _, at, step) => s.(requests := s.requests[id := Matched(step, at)])
    case Refuse(id) => s.(requests := s.requests - {id})
    case Advance(id) =>
      var m := s.requests[id];
      var done := s.(requests := s.requests - {id});
      if Unused(m.step, s.lastStep)
      then done.(lastStep := Some(m.step), accepted := s.accepted + [Acceptance(m.step, m.at)])
      else done
  }

  /** The state the events lead to from an enrolment at `floor`, if they can happen. */
  function Run(hmac: Hmac, secret: seq<Byte>, floor: Option<int>, events: seq<Event>): Option<State> {
    if events == [] then Some(State(floor, map[], []))
    else
      var before := Run(hmac, secret, floor, events[..|events| - 1]);
      var e := events[|events| - 1];
      if before.Some? && Enabled(hmac, secret, before.value, e) then Some(Next(hmac, secret, before.value, e)) else None
  }

  /** Every attempt of the run is made in [from, to]. */
  predicate Within(events: seq<Event>, from: Time, to: Time) {
    forall e | e in events :: e.Match? ==> from <= e.at <= to
  }

  // ---------------------------------------------------------------------------------------
  // Safety
  // ---------------------------------------------------------------------------------------

  /** A step is near a time when it is the time's own or one beside it. */
  predicate Near(step: int, at: Time) { StepAt(at) - 1 <= step <= StepAt(at) + 1 }

  predicate Increasing(accepted: seq<Acceptance>) {
    forall i, j | 0 <= i < j < |accepted| :: accepted[i].step < accepted[j].step
  }

  predicate Safe(s: State, floor: Option<int>, from: Time, to: Time) {
    && Increasing(s.accepted)
    && s.lastStep == (if s.accepted == [] then floor else Some(s.accepted[|s.accepted| - 1].step))
    && (forall a | a in s.accepted :: Near(a.step, a.at) && from <= a.at <= to && Unused(a.step, floor))
    && (forall id | id in s.requests && s.requests[id].Matched? ::
          Near(s.requests[id].step, s.requests[id].at) && from <= s.requests[id].at <= to)
  }

  /**
   Over every run of requests, however they interleave and whatever the clock does: accepted steps
   strictly increase, each is within one of the step of its own attempt, and none is at or below the
   floor the run began with.
   */
  lemma {:induction false} AcceptedStepsIncrease(hmac: Hmac, secret: seq<Byte>, floor: Option<int>, events: seq<Event>,
                                                 from: Time, to: Time)
    requires Run(hmac, secret, floor, events).Some? && Within(events, from, to)
    ensures Safe(Run(hmac, secret, floor, events).value, floor, from, to)
  {
    if events != [] {
      var init, e := events[..|events| - 1], events[|events| - 1];
      assert Within(init, from, to) && e in events;
      AcceptedStepsIncrease(hmac, secret, floor, init, from, to);
      var s := Run(hmac, secret, floor, init).value;
      StepKeepsSafe(hmac, secret, s, e, floor, from, to);
    }
  }

  lemma StepKeepsSafe(hmac: Hmac, secret: seq<Byte>, s: State, e: Event, floor: Option<int>, from: Time, to: Time)
    requires Enabled(hmac, secret, s, e) && Safe(s, floor, from, to)
    requires e.Match? ==> from <= e.at <= to
    ensures Safe(Next(hmac, secret, s, e), floor, from, to)
  {
    if e.Advance? && Unused(s.requests[e.id].step, s.lastStep) {
      AdvanceKeepsSafe(hmac, secret, s, e, floor, from, to);
    }
  }

  lemma AdvanceKeepsSafe(hmac: Hmac, secret: seq<Byte>, s: State, e: Event, floor: Option<int>, from: Time, to: Time)
    requires Enabled(hmac, secret, s, e) && Safe(s, floor, from, to)
    requires e.Advance? && Unused(s.requests[e.id].step, s.lastStep)
    ensures Safe(Next(hmac, secret, s, e), floor, from, to)
  {
    var m := s.requests[e.id];
    var accepted := s.accepted + [Acceptance(m.step, m.at)];
    assert forall i | 0 <= i < |s.accepted| :: accepted[i].step <= s.accepted[|s.accepted| - 1].step;
    assert s.accepted != [] ==> s.accepted[|s.accepted| - 1] in s.accepted;
  }

  lemma {:induction false} IncreasingFits(accepted: seq<Acceptance>, low: int, high: int)
    requires Increasing(accepted) && low <= high + 1
    requires forall a | a in accepted :: low <= a.step <= high
    ensures |accepted| <= high - low + 1
  {
    if accepted != [] {
      var init, last := accepted[..|accepted| - 1], accepted[|accepted| - 1];
      assert last in accepted;
      forall a | a in init ensures low <= a.step <= last.step - 1 {
        var i :| 0 <= i < |init| && init[i] == a;
        assert accepted[i] == a && a in accepted;
      }
      IncreasingFits(init, low, last.step - 1);
    }
  }

  /** Attempts made in [from, to] are accepted at most `step(to) - step(from) + 3` times in all. */
  lemma AcceptancesBounded(hmac: Hmac, secret: seq<Byte>, floor: Option<int>, events: seq<Event>, from: Time, to: Time)
    requires Run(hmac, secret, floor, events).Some? && Within(events, from, to) && from <= to
    ensures |Run(hmac, secret, floor, events).value.accepted| <= StepAt(to) - StepAt(from) + 3
  {
    AcceptedStepsIncrease(hmac, secret, floor, events, from, to);
    var accepted := Run(hmac, secret, floor, events).value.accepted;
    assert forall a | a in accepted :: StepAt(from) <= StepAt(a.at) <= StepAt(to);
    IncreasingFits(accepted, StepAt(from) - 1, StepAt(to) + 1);
  }

  /** Two requests that both saw the same floor cannot both be accepted at one step. */
  lemma NoStepTwice(hmac: Hmac, secret: seq<Byte>, floor: Option<int>, events: seq<Event>, i: nat, j: nat)
    requires Run(hmac, secret, floor, events).Some?
    requires i < |Run(hmac, secret, floor, events).value.accepted| && j < |Run(hmac, secret, floor, events).value.accepted|
    ensures Run(hmac, secret, floor, events).value.accepted[i].step == Run(hmac, secret, floor, events).value.accepted[j].step
       <==> i == j
  {
    AcceptedStepsIncrease(hmac, secret, floor, events, I64_MIN, I64_MAX);
  }
}
