/**
 The consumer loop over a work queue: decode, run the handler under a heartbeat, then ack or hand
 back. Each loop is proved against a function of the broker's state, and that function against the
 runs of the protocol, so what holds of every run holds of every consumer.
 */
module Consumer {
  import opened Options
  import opened WorkQueue

  // ---------------------------------------------------------------------------------------
  // The message handle
  // ---------------------------------------------------------------------------------------

  class Message {
    const ackWait: nat
    var stored: bool
    var delivered: nat
    var lease: Option<nat>
    var availableAt: nat
    var now: nat

    constructor (ackWait: nat)
      ensures State() == FRESH && this.ackWait == ackWait
    {
      this.ackWait := ackWait;
      stored, delivered, lease, availableAt, now := true, 0, None, 0, 0;
    }

    function State(): Broker
      reads this
    {
      Broker(stored, delivered, lease, availableAt, now)
    }

    method Sleep(seconds: nat)
      modifies this
      ensures State() == Waited(old(State()), seconds)
    {
      now := now + seconds;
    }

    method Claim()
      requires Deliverable(State())
      modifies this
      ensures State() == Delivered(old(State()), ackWait)
    {
      delivered, lease := delivered + 1, Some(now + ackWait);
    }

    method AckProgress(landed: bool)
      modifies this
      ensures State() == Progressed(old(State()), ackWait, landed)
    {
      if landed && lease.Some? {
        lease := Some(now + ackWait);
      }
    }

    method Ack(landed: bool)
      modifies this
      ensures State() == Acked(old(State()), landed)
    {
      if landed {
        stored, lease := false, None;
      }
    }

    method RetryLater(delay: nat, landed: bool)
      modifies this
      ensures State() == Naked(old(State()), delay, landed)
    {
      if landed && lease.Some? {
        lease, availableAt := None, now + delay;
      }
    }
  }

  // ---------------------------------------------------------------------------------------
  // The heartbeat
  // ---------------------------------------------------------------------------------------

  /** Ticks before work of `duration` ends; one that falls on its end is not sent. */
  function Ticks(every: nat, duration: nat): (n: nat)
    requires every > 0
    ensures n * every <= duration <= (n + 1) * every
    ensures n > 0 ==> n * every < duration
  {
    if duration == 0 then 0 else (duration - 1) / every
  }

  /** The broker after `n` heartbeats, of which the `i`-th lands when `lands(i)`. */
  function AfterBeats(b: Broker, ackWait: nat, every: nat, lands: nat -> bool, n: nat): Broker {
    if n == 0 then b
    else Progressed(Waited(AfterBeats(b, ackWait, every, lands, n - 1), every), ackWait, lands(n))
  }

  /** The broker when the work is done. */
  function AfterWork(b: Broker, ackWait: nat, heartbeat: Option<nat>, duration: nat, lands: nat -> bool): Broker
    requires heartbeat.Some? ==> heartbeat.value > 0
  {
    if heartbeat.None? then Waited(b, duration)
    else
      var every := heartbeat.value;
      var n := Ticks(every, duration);
      Waited(AfterBeats(b, ackWait, every, lands, n), duration - n * every)
  }

  method WithAckHeartbeat(msg: Message, every: nat, duration: nat, lands: nat -> bool)
    requires every > 0
    modifies msg
    ensures msg.State() == AfterWork(old(msg.State()), msg.ackWait, Some(every), duration, lands)
  {
    var tick := 1;
    while tick * every < duration
      invariant tick >= 1 && tick - 1 <= Ticks(every, duration)
      invariant msg.State() == AfterBeats(old(msg.State()), msg.ackWait, every, lands, tick - 1)
      decreases Ticks(every, duration) - tick
    {
      TickIsCounted(every, duration, tick);
      msg.Sleep(every);
      msg.AckProgress(lands(tick));
      tick := tick + 1;
    }
    TicksAreAll(every, duration, tick - 1);
    msg.Sleep(duration - (tick - 1) * every);
  }

  lemma FewerTimes(a: nat, b: nat, every: nat)
    requires a * every < b * every
    ensures a < b
  {
    assert (b - a) * every > 0;
  }

  lemma TickIsCounted(every: nat, duration: nat, tick: nat)
    requires every > 0 && tick * every < duration
    ensures tick <= Ticks(every, duration)
  {
    FewerTimes(tick, Ticks(every, duration) + 1, every);
  }

  lemma TicksAreAll(every: nat, duration: nat, n: nat)
    requires every > 0 && n <= Ticks(every, duration) && (n + 1) * every >= duration
    ensures n == Ticks(every, duration)
  {
    if Ticks(every, duration) > 0 {
      FewerTimes(Ticks(every, duration), n + 1, every);
    }
  }

  lemma {:induction false} BeatsKeep(b: Broker, ackWait: nat, every: nat, lands: nat -> bool, n: nat)
    ensures var after := AfterBeats(b, ackWait, every, lands, n);
      && after.stored == b.stored && after.delivered == b.delivered && after.availableAt == b.availableAt
      && (after.lease.Some? <==> b.lease.Some?) && after.now == b.now + n * every
  {
    if n > 0 {
      BeatsKeep(b, ackWait, every, lands, n - 1);
      assert n * every == (n - 1) * every + every;
    }
  }

  /** Work takes its time and neither settles the message nor loses its claim. */
  lemma WorkKeeps(b: Broker, ackWait: nat, heartbeat: Option<nat>, duration: nat, lands: nat -> bool)
    requires heartbeat.Some? ==> heartbeat.value > 0
    ensures var after := AfterWork(b, ackWait, heartbeat, duration, lands);
      && after.stored == b.stored && after.delivered == b.delivered && after.availableAt == b.availableAt
      && (after.lease.Some? <==> b.lease.Some?) && after.now == b.now + duration
  {
    if heartbeat.Some? {
      BeatsKeep(b, ackWait, heartbeat.value, lands, Ticks(heartbeat.value, duration));
    }
  }

  // ---------------------------------------------------------------------------------------
  // One delivery
  // ---------------------------------------------------------------------------------------

  /**
   What the world decides about a pull: how long it waits, whether the count can be read, how long the
   handler takes and whether it fails, and which heartbeats and whether the settlement land.
   */
  datatype Pull = Pull(wait: nat, readable: bool, duration: nat, failed: bool, lands: nat -> bool, settles: bool)

  /** The broker once a claimed delivery has been worked on and settled. */
  function Handled(setting: Setting, heartbeat: Option<nat>, b: Broker, pull: Pull): Broker
    requires heartbeat.Some? ==> heartbeat.value > 0
  {
    var worked := if setting.decodable then AfterWork(b, setting.ackWait, heartbeat, pull.duration, pull.lands) else b;
    Settled(setting, worked, pull.failed, DeliveryCount(b.delivered, pull.readable), pull.settles)
  }

  method HandleDelivery(msg: Message, setting: Setting, heartbeat: Option<nat>, pull: Pull)
    requires heartbeat.Some? ==> heartbeat.value > 0
    requires setting.ackWait == msg.ackWait
    modifies msg
    ensures msg.State() == Handled(setting, heartbeat, old(msg.State()), pull)
    ensures var count := if pull.readable then old(msg.delivered) else 1;
      && (pull.settles && (!setting.decodable || !pull.failed || count >= setting.maxDeliveries) ==> !msg.stored && msg.lease.None?)
      && (setting.decodable && pull.failed && count < setting.maxDeliveries ==> msg.stored == old(msg.stored))
      && (setting.decodable && pull.failed && count < setting.maxDeliveries && pull.settles && old(msg.lease).Some? ==>
            msg.lease.None? && msg.availableAt == msg.now + setting.backoff(count))
      && (!pull.settles ==> msg.stored == old(msg.stored) && (old(msg.lease).Some? ==> msg.lease.Some?))
      && msg.now == old(msg.now) + if setting.decodable then pull.duration else 0
  {
    WorkKeeps(old(msg.State()), setting.ackWait, heartbeat, pull.duration, pull.lands);
    if !setting.decodable {
      msg.Ack(pull.settles);
      return;
    }
    var deliveries := if pull.readable then msg.delivered else 1;
    match heartbeat {
      case Some(every) => WithAckHeartbeat(msg, every, pull.duration, pull.lands);
      case None => msg.Sleep(pull.duration);
    }
    if pull.failed && deliveries < setting.maxDeliveries {
      msg.RetryLater(setting.backoff(deliveries), pull.settles);
      return;
    }
    msg.Ack(pull.settles);
  }

  /** The broker after one turn of the loop; nothing is pulled while the message is not deliverable. */
  function Turned(setting: Setting, heartbeat: Option<nat>, b: Broker, pull: Pull): Broker
    requires heartbeat.Some? ==> heartbeat.value > 0
  {
    var ready := Waited(b, pull.wait);
    if Deliverable(ready) then Handled(setting, heartbeat, Delivered(ready, setting.ackWait), pull) else ready
  }

  function Consumed(setting: Setting, heartbeat: Option<nat>, b: Broker, pulls: seq<Pull>): Broker
    requires heartbeat.Some? ==> heartbeat.value > 0
  {
    if pulls == [] then b
    else Turned(setting, heartbeat, Consumed(setting, heartbeat, b, pulls[..|pulls| - 1]), pulls[|pulls| - 1])
  }

  /** The loop, until it is told to stop after `pulls`. */
  method Consume(msg: Message, setting: Setting, heartbeat: Option<nat>, pulls: seq<Pull>)
    requires heartbeat.Some? ==> heartbeat.value > 0
    requires setting.ackWait == msg.ackWait
    modifies msg
    ensures msg.State() == Consumed(setting, heartbeat, old(msg.State()), pulls)
  {
    var i := 0;
    while i < |pulls|
      invariant i <= |pulls|
      invariant msg.State() == Consumed(setting, heartbeat, old(msg.State()), pulls[..i])
    {
      assert pulls[..i + 1][..i] == pulls[..i];
      var pull := pulls[i];
      i := i + 1;
      msg.Sleep(pull.wait);
      if !Deliverable(msg.State()) {
        continue;
      }
      msg.Claim();
      HandleDelivery(msg, setting, heartbeat, pull);
    }
    assert pulls[..|pulls|] == pulls;
  }

  // ---------------------------------------------------------------------------------------
  // Every consumer is a run of the protocol
  // ---------------------------------------------------------------------------------------

  /** How many heartbeats in a row, up to the `n`-th, have been lost. */
  function Streak(lands: nat -> bool, n: nat): nat {
    if n == 0 || lands(n) then 0 else 1 + Streak(lands, n - 1)
  }

  /** No more than `allowed` heartbeats in a row are lost while the handler runs. */
  predicate FewLost(heartbeat: Option<nat>, pull: Pull, allowed: nat)
    requires heartbeat.Some? ==> heartbeat.value > 0
  {
    match heartbeat
    case None => true
    case Some(every) => forall n | 0 <= n <= Ticks(every, pull.duration) :: Streak(pull.lands, n) <= allowed
  }

  /** The longest the consumer goes between heartbeats. */
  predicate GapHolds(heartbeat: Option<nat>, pull: Pull, gap: nat)
    requires heartbeat.Some? ==> heartbeat.value > 0
  {
    match heartbeat
    case None => pull.duration <= gap
    case Some(every) => every <= gap
  }

  /** A world with nothing in hand that the events lead to, and whether they keep the discipline. */
  ghost predicate Leads(setting: Setting, events: seq<Event>, b: Broker, disciplined: bool, gap: nat, allowed: nat) {
    && Possible(setting, events) && After(setting, events).broker == b && After(setting, events).handlers == map[]
    && (disciplined ==> Disciplined(setting, events, gap, allowed))
  }

  /** The same while worker 0 has the message in hand. */
  ghost predicate Working(setting: Setting, events: seq<Event>, b: Broker, number: nat, deliveries: nat, lost: nat,
                          disciplined: bool, gap: nat, allowed: nat, idle: nat) {
    && Possible(setting, events) && After(setting, events).broker == b
    && After(setting, events).handlers.Keys == {0}
    && (disciplined ==> Disciplined(setting, events, gap, allowed))
    && var h := After(setting, events).handlers[0];
       h.number == number && h.deliveries == deliveries && h.lost == lost && h.beatAt + idle == b.now
  }

  lemma OneMore(setting: Setting, events: seq<Event>, e: Event, disciplined: bool, gap: nat, allowed: nat)
    requires Possible(setting, events) && Enabled(After(setting, events), e)
    requires disciplined ==> Disciplined(setting, events, gap, allowed) && Timely(After(setting, events), e, gap, allowed)
    ensures Possible(setting, events + [e])
    ensures After(setting, events + [e]) == Next(setting, After(setting, events), e)
    ensures disciplined ==> Disciplined(setting, events + [e], gap, allowed)
  {
    if disciplined {
      TimelyExtended(setting, events, e, gap, allowed);
    } else {
      assert (events + [e])[..|events|] == events;
    }
  }

  lemma {:induction false} BeatsAreRun(setting: Setting, events: seq<Event>, b: Broker, number: nat, deliveries: nat,
                                       every: nat, lands: nat -> bool, n: nat,
                                       disciplined: bool, gap: nat, allowed: nat) returns (more: seq<Event>)
    requires Working(setting, events, b, number, deliveries, 0, disciplined, gap, allowed, 0)
    requires disciplined ==> every <= gap && forall i | 0 <= i <= n :: Streak(lands, i) <= allowed
    ensures Working(setting, more, AfterBeats(b, setting.ackWait, every, lands, n), number, deliveries,
                    Streak(lands, n), disciplined, gap, allowed, 0)
  {
    if n == 0 {
      more := events;
    } else {
      more := BeatsAreRun(setting, events, b, number, deliveries, every, lands, n - 1, disciplined, gap, allowed);
      OneMore(setting, more, Wait(every), disciplined, gap, allowed);
      more := more + [Wait(every)];
      assert Streak(lands, n) <= allowed || !disciplined;
      OneMore(setting, more, Beat(0, lands(n)), disciplined, gap, allowed);
      more := more + [Beat(0, lands(n))];
    }
  }

  lemma WorkIsRun(setting: Setting, events: seq<Event>, b: Broker, number: nat, deliveries: nat,
                  heartbeat: Option<nat>, pull: Pull, disciplined: bool, gap: nat, allowed: nat)
      returns (more: seq<Event>, lost: nat, idle: nat)
    requires heartbeat.Some? ==> heartbeat.value > 0
    requires Working(setting, events, b, number, deliveries, 0, disciplined, gap, allowed, 0)
    requires disciplined ==> GapHolds(heartbeat, pull, gap) && FewLost(heartbeat, pull, allowed)
    ensures Working(setting, more, AfterWork(b, setting.ackWait, heartbeat, pull.duration, pull.lands), number,
                    deliveries, lost, disciplined, gap, allowed, idle)
  {
    var rest := pull.duration;
    more, lost := events, 0;
    if heartbeat.Some? {
      var n := Ticks(heartbeat.value, pull.duration);
      more := BeatsAreRun(setting, events, b, number, deliveries, heartbeat.value, pull.lands, n, disciplined, gap, allowed);
      rest, lost := pull.duration - n * heartbeat.value, Streak(pull.lands, n);
      assert (n + 1) * heartbeat.value == n * heartbeat.value + heartbeat.value;
    }
    idle := rest;
    OneMore(setting, more, Wait(rest), disciplined, gap, allowed);
    more := more + [Wait(rest)];
  }

  /** One delivery, from the claim to the settlement. */
  lemma DeliveryIsRun(setting: Setting, heartbeat: Option<nat>, events: seq<Event>, b: Broker, pull: Pull,
                      disciplined: bool, gap: nat, allowed: nat) returns (more: seq<Event>)
    requires heartbeat.Some? ==> heartbeat.value > 0
    requires Leads(setting, events, b, disciplined, gap, allowed) && Deliverable(b)
    requires disciplined ==> GapHolds(heartbeat, pull, gap) && FewLost(heartbeat, pull, allowed)
    ensures Leads(setting, more, Handled(setting, heartbeat, Delivered(b, setting.ackWait), pull), disciplined, gap, allowed)
  {
    OneMore(setting, events, Deliver(0, pull.readable), disciplined, gap, allowed);
    more := events + [Deliver(0, pull.readable)];
    var claimed := Delivered(b, setting.ackWait);
    var number, deliveries := claimed.delivered, DeliveryCount(claimed.delivered, pull.readable);
    assert Working(setting, more, claimed, number, deliveries, 0, disciplined, gap, allowed, 0);
    if setting.decodable {
      var lost, idle;
      more, lost, idle := WorkIsRun(setting, more, claimed, number, deliveries, heartbeat, pull, disciplined, gap, allowed);
    }
    OneMore(setting, more, Finish(0, pull.failed, pull.settles), disciplined, gap, allowed);
    more := more + [Finish(0, pull.failed, pull.settles)];
  }

  lemma TurnIsRun(setting: Setting, heartbeat: Option<nat>, events: seq<Event>, b: Broker, pull: Pull,
                  disciplined: bool, gap: nat, allowed: nat) returns (more: seq<Event>)
    requires heartbeat.Some? ==> heartbeat.value > 0
    requires Leads(setting, events, b, disciplined, gap, allowed)
    requires disciplined ==> GapHolds(heartbeat, pull, gap) && FewLost(heartbeat, pull, allowed)
    ensures Leads(setting, more, Turned(setting, heartbeat, b, pull), disciplined, gap, allowed)
  {
    OneMore(setting, events, Wait(pull.wait), disciplined, gap, allowed);
    more := events + [Wait(pull.wait)];
    if Deliverable(Waited(b, pull.wait)) {
      more := DeliveryIsRun(setting, heartbeat, more, Waited(b, pull.wait), pull, disciplined, gap, allowed);
    }
  }

  /**
   Whatever a consumer goes through is a run of the protocol, and a disciplined one when it never loses
   more heartbeats in a row than allowed: no silent loss, the delivery budget and the exclusive claim
   hold of it.
   */
  lemma {:induction false} ConsumerIsRun(setting: Setting, heartbeat: Option<nat>, pulls: seq<Pull>,
                                         disciplined: bool, gap: nat, allowed: nat) returns (events: seq<Event>)
    requires heartbeat.Some? ==> heartbeat.value > 0
    requires disciplined ==> forall p | p in pulls :: GapHolds(heartbeat, p, gap) && FewLost(heartbeat, p, allowed)
    ensures Leads(setting, events, Consumed(setting, heartbeat, FRESH, pulls), disciplined, gap, allowed)
  {
    if pulls == [] {
      events := [];
    } else {
      var init, last := pulls[..|pulls| - 1], pulls[|pulls| - 1];
      assert last in pulls && forall p | p in init :: p in pulls;
      events := ConsumerIsRun(setting, heartbeat, init, disciplined, gap, allowed);
      events := TurnIsRun(setting, heartbeat, events, Consumed(setting, heartbeat, FRESH, init), last, disciplined, gap, allowed);
    }
  }
}
