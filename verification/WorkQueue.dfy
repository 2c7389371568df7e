/**
 One message of a work queue, and everything that may happen to it: deliveries to any number of
 workers, heartbeats and settlements that land or are lost, crashes, and time going by.

 The broker is the part of JetStream that the consumer relies on: a claimed message is not delivered
 again before its deadline; progress moves the deadline; an ack removes the message; a negative ack
 frees it once a delay has passed. What does not land changes nothing.
 */
module WorkQueue {
  import opened Options

  // ---------------------------------------------------------------------------------------
  // The broker
  // ---------------------------------------------------------------------------------------

  /** The message as the broker keeps it: `lease` is the redelivery deadline of an open claim. */
  datatype Broker = Broker(stored: bool, delivered: nat, lease: Option<nat>, availableAt: nat, now: nat)

  const FRESH := Broker(true, 0, None, 0, 0)

  predicate Deliverable(b: Broker) {
    b.stored && b.now >= b.availableAt && (b.lease.None? || b.now >= b.lease.value)
  }

  function Delivered(b: Broker, ackWait: nat): Broker {
    b.(delivered := b.delivered + 1, lease := Some(b.now + ackWait))
  }

  function Waited(b: Broker, seconds: nat): Broker { b.(now := b.now + seconds) }

  /** A progress ack moves the deadline of an open claim. */
  function Progressed(b: Broker, ackWait: nat, landed: bool): Broker {
    if landed && b.lease.Some? then b.(lease := Some(b.now + ackWait)) else b
  }

  function Acked(b: Broker, landed: bool): Broker {
    if landed then b.(stored := false, lease := None) else b
  }

  /** A negative ack frees the message after `delay`. */
  function Naked(b: Broker, delay: nat, landed: bool): Broker {
    if landed && b.lease.Some? then b.(lease := None, availableAt := b.now + delay) else b
  }

  // ---------------------------------------------------------------------------------------
  // The consumers
  // ---------------------------------------------------------------------------------------

  /**
   What the consumer was opened with and what the message is: a payload decodes every time or never.
   */
  datatype Setting = Setting(maxDeliveries: nat, backoff: nat -> nat, ackWait: nat, decodable: bool)

  /**
   A delivery being worked on: its number, the count read off it, when the claim was last renewed, when
   a heartbeat last left, and how many in a row have been lost.
   */
  datatype Handling = Handling(number: nat, deliveries: nat, renewedAt: nat, beatAt: nat, lost: nat)

  datatype World = World(broker: Broker, handlers: map<nat, Handling>, runs: nat)

  const START := World(FRESH, map[], 0)

  datatype Event =
    | Wait(seconds: nat)
    | Deliver(worker: nat, readable: bool)
    | Beat(worker: nat, landed: bool)
    | Finish(worker: nat, failed: bool, landed: bool)
    | Crash(worker: nat)

  /** The delivery count as it is read: 1 when the metadata cannot be. */
  function DeliveryCount(number: nat, readable: bool): nat { if readable then number else 1 }

  /** Whether a finished delivery is handed back: a retryable failure with budget left. */
  predicate HandsBack(setting: Setting, failed: bool, deliveries: nat) {
    setting.decodable && failed && deliveries < setting.maxDeliveries
  }

  /** The settlement the consumer sends when a delivery is finished. */
  function Settled(setting: Setting, b: Broker, failed: bool, deliveries: nat, landed: bool): Broker {
    if HandsBack(setting, failed, deliveries) then Naked(b, setting.backoff(deliveries), landed) else Acked(b, landed)
  }

  predicate Enabled(w: World, e: Event) {
    match e
    case Wait(_) => true
    case Deliver(worker, _) => worker !in w.handlers && Deliverable(w.broker)
    case Beat(worker, _) => worker in w.handlers
    case Finish(worker, _, _) => worker in w.handlers
    case Crash(worker) => worker in w.handlers
  }

  function Beaten(h: Handling, now: nat, landed: bool): Handling {
    if landed then h.(renewedAt := now, beatAt := now, lost := 0) else h.(beatAt := now, lost := h.lost + 1)
  }

  function Next(setting: Setting, w: World, e: Event): World
    requires Enabled(w, e)
  {
    match e
    case Wait(seconds) => w.(broker := Waited(w.broker, seconds))
    case Deliver(worker, readable) =>
      var number := w.broker.delivered + 1;
      var h := Handling(number, DeliveryCount(number, readable), w.broker.now, w.broker.now, 0);
      World(Delivered(w.broker, setting.ackWait), w.handlers[worker := h], w.runs + if setting.decodable then 1 else 0)
    case Beat(worker, landed) =>
      World(Progressed(w.broker, setting.ackWait, landed),
            w.handlers[worker := Beaten(w.handlers[worker], w.broker.now, landed)], w.runs)
    case Finish(worker, failed, landed) =>
      World(Settled(setting, w.broker, failed, w.handlers[worker].deliveries, landed), w.handlers - {worker}, w.runs)
    case Crash(worker) => w.(handlers := w.handlers - {worker})
  }

  // ---------------------------------------------------------------------------------------
  // Runs
  // ---------------------------------------------------------------------------------------

  /** Whether the events can happen one after the other, and the world they lead to. */
  function Run(setting: Setting, events: seq<Event>): Option<World> {
    if events == [] then Some(START)
    else
      var before := Run(setting, events[..|events| - 1]);
      var e := events[|events| - 1];
      if before.Some? && Enabled(before.value, e) then Some(Next(setting, before.value, e)) else None
  }

  predicate Possible(setting: Setting, events: seq<Event>) { Run(setting, events).Some? }

  function After(setting: Setting, events: seq<Event>): World
    requires Possible(setting, events)
  {
    Run(setting, events).value
  }

  /** The world in front of event `i`. */
  lemma {:induction false} PrefixPossible(setting: Setting, events: seq<Event>, i: nat)
    requires Possible(setting, events) && i <= |events|
    ensures Possible(setting, events[..i])
    ensures i < |events| ==> Enabled(After(setting, events[..i]), events[i])
  {
    if i < |events| {
      var init := events[..|events| - 1];
      if i < |init| {
        PrefixPossible(setting, init, i);
        assert init[..i] == events[..i];
      } else {
        assert events[..i] == init;
      }
    } else {
      assert events[..i] == events;
    }
  }

  /** The world in front of event `i`. */
  function Before(setting: Setting, events: seq<Event>, i: nat): World
    requires Possible(setting, events) && i <= |events|
  {
    PrefixPossible(setting, events, i);
    After(setting, events[..i])
  }

  // ---------------------------------------------------------------------------------------
  // No silent loss
  // ---------------------------------------------------------------------------------------

  /** Whether event `i` takes the message out of the stream. */
  predicate RemovedAt(setting: Setting, events: seq<Event>, i: nat)
    requires Possible(setting, events) && i < |events|
  {
    && Before(setting, events, i).broker.stored
    && !Before(setting, events, i + 1).broker.stored
  }

  /**
   A reason the consumer has to remove the message: its payload does not decode, its handler succeeded,
   or it failed on a delivery that used up the budget.
   */
  predicate RemovedForReason(setting: Setting, events: seq<Event>, i: nat)
    requires Possible(setting, events) && i < |events|
  {
    var w, e := Before(setting, events, i), events[i];
    && e.Finish? && e.landed && e.worker in w.handlers
    && (!setting.decodable || !e.failed || w.handlers[e.worker].number >= setting.maxDeliveries)
  }

  /** What holds of every delivery in hand: its number, and a count that never overstates it. */
  predicate Counted(w: World) {
    forall id | id in w.handlers ::
      && 1 <= w.handlers[id].number <= w.broker.delivered
      && 1 <= w.handlers[id].deliveries <= w.handlers[id].number
  }

  lemma {:induction false} DeliveriesCounted(setting: Setting, events: seq<Event>)
    requires Possible(setting, events)
    ensures Counted(After(setting, events))
  {
    if events != [] {
      DeliveriesCounted(setting, events[..|events| - 1]);
    }
  }

  lemma StepOf(setting: Setting, events: seq<Event>, i: nat)
    requires Possible(setting, events) && i < |events|
    ensures Enabled(Before(setting, events, i), events[i])
    ensures Before(setting, events, i + 1) == Next(setting, Before(setting, events, i), events[i])
  {
    PrefixPossible(setting, events, i);
    PrefixPossible(setting, events, i + 1);
    assert events[..i + 1][..i] == events[..i];
  }

  lemma RemovalHasReason(setting: Setting, events: seq<Event>, i: nat)
    requires Possible(setting, events) && i < |events| && RemovedAt(setting, events, i)
    ensures RemovedForReason(setting, events, i)
  {
    StepOf(setting, events, i);
    PrefixPossible(setting, events, i);
    DeliveriesCounted(setting, events[..i]);
  }

  /** Once it has left, the message does not come back. */
  lemma {:induction false} GoneForGood(setting: Setting, events: seq<Event>, i: nat, j: nat)
    requires Possible(setting, events) && i <= j <= |events| && !Before(setting, events, i).broker.stored
    ensures !Before(setting, events, j).broker.stored
  {
    if i < j {
      GoneForGood(setting, events, i, j - 1);
      StepOf(setting, events, j - 1);
    }
  }

  lemma {:induction false} RemovalFound(setting: Setting, events: seq<Event>, n: nat) returns (i: nat)
    requires Possible(setting, events) && n <= |events| && !Before(setting, events, n).broker.stored
    ensures i < n && RemovedAt(setting, events, i)
  {
    assert n > 0 by {
      assert events[..0] == [];
    }
    if Before(setting, events, n - 1).broker.stored {
      i := n - 1;
    } else {
      i := RemovalFound(setting, events, n - 1);
    }
  }

  /**
   No silent loss: in every run the message has left the stream exactly when one event removed it, and
   that event had reason to.
   */
  lemma NoSilentLoss(setting: Setting, events: seq<Event>)
    requires Possible(setting, events)
    ensures !After(setting, events).broker.stored <==> exists i | 0 <= i < |events| :: RemovedAt(setting, events, i)
    ensures forall i | 0 <= i < |events| && RemovedAt(setting, events, i) :: RemovedForReason(setting, events, i)
  {
    assert events[..|events|] == events;
    if !After(setting, events).broker.stored {
      var i := RemovalFound(setting, events, |events|);
    }
    forall i | 0 <= i < |events| && RemovedAt(setting, events, i)
      ensures RemovedForReason(setting, events, i) && !After(setting, events).broker.stored
    {
      RemovalHasReason(setting, events, i);
      GoneForGood(setting, events, i + 1, |events|);
    }
  }

  // ---------------------------------------------------------------------------------------
  // What each event does to the message
  // ---------------------------------------------------------------------------------------

  /** A finished delivery that is done with: nothing to decode, nothing failed, or the count read has spent the budget. */
  predicate IsDone(setting: Setting, w: World, e: Event)
    requires e.Finish? && e.worker in w.handlers
  {
    !setting.decodable || !e.failed || w.handlers[e.worker].deliveries >= setting.maxDeliveries
  }

  /** An event takes the message out of the stream if and only if it is the landed settlement of a delivery that is done with. */
  lemma RemovedIff(setting: Setting, events: seq<Event>, i: nat)
    requires Possible(setting, events) && i < |events|
    ensures var w, e := Before(setting, events, i), events[i];
      RemovedAt(setting, events, i) <==>
        w.broker.stored && e.Finish? && e.landed && e.worker in w.handlers && IsDone(setting, w, e)
  {
    StepOf(setting, events, i);
  }

  /** A failure with budget left hands the message back: free again once the backoff of the count read has passed. */
  lemma HandedBack(setting: Setting, events: seq<Event>, i: nat)
    requires Possible(setting, events) && i < |events| && events[i].Finish?
    requires events[i].worker in Before(setting, events, i).handlers
    requires !IsDone(setting, Before(setting, events, i), events[i])
    ensures var w, e, after := Before(setting, events, i), events[i], Before(setting, events, i + 1).broker;
      && after.stored == w.broker.stored && after.delivered == w.broker.delivered && after.now == w.broker.now
      && (e.landed && w.broker.lease.Some? ==>
            after.lease.None? && after.availableAt == w.broker.now + setting.backoff(w.handlers[e.worker].deliveries))
      && (!e.landed || w.broker.lease.None? ==> after.lease == w.broker.lease && after.availableAt == w.broker.availableAt)
  {
    StepOf(setting, events, i);
  }

  /**
   A delivery needs a stored message that is free: past its backoff, and unclaimed or past its deadline. It
   opens a claim and counts one more; the count read is that number, or 1 when it cannot be read.
   */
  lemma DeliveredAt(setting: Setting, events: seq<Event>, i: nat)
    requires Possible(setting, events) && i < |events| && events[i].Deliver?
    ensures var w, e, after := Before(setting, events, i), events[i], Before(setting, events, i + 1);
      && w.broker.stored && w.broker.now >= w.broker.availableAt
      && (w.broker.lease.Some? ==> w.broker.now >= w.broker.lease.value)
      && after.broker.delivered == w.broker.delivered + 1
      && after.broker.lease == Some(w.broker.now + setting.ackWait)
      && e.worker in after.handlers && after.handlers[e.worker].number == w.broker.delivered + 1
      && after.handlers[e.worker].deliveries == (if e.readable then w.broker.delivered + 1 else 1)
      && after.runs == w.runs + (if setting.decodable then 1 else 0)
  {
    StepOf(setting, events, i);
  }

  /** A heartbeat that lands moves the deadline of an open claim; one that is lost changes nothing at the broker. */
  lemma BeatAtBroker(setting: Setting, events: seq<Event>, i: nat)
    requires Possible(setting, events) && i < |events| && events[i].Beat?
    ensures var before, after := Before(setting, events, i).broker, Before(setting, events, i + 1).broker;
      after == if events[i].landed && before.lease.Some? then before.(lease := Some(before.now + setting.ackWait)) else before
  {
    StepOf(setting, events, i);
  }

  // ---------------------------------------------------------------------------------------
  // The delivery budget
  // ---------------------------------------------------------------------------------------

  /** A run in which every settlement lands, no deadline lapses and, if `readable`, every count is read. */
  predicate Clean(setting: Setting, events: seq<Event>, readable: bool)
    requires Possible(setting, events)
  {
    forall i | 0 <= i < |events| :: CleanAt(setting, events, i, readable)
  }

  predicate CleanAt(setting: Setting, events: seq<Event>, i: nat, readable: bool)
    requires Possible(setting, events) && i < |events|
  {
    match events[i]
    case Finish(_, _, landed) => landed
    case Deliver(_, read) => Before(setting, events, i).broker.lease.None? && (readable ==> read)
    case _ => true
  }

  function Budget(setting: Setting): nat { if setting.maxDeliveries == 0 then 1 else setting.maxDeliveries }

  /** In a clean run there is one claim at a time, and a free message has budget left. */
  predicate WithinBudget(setting: Setting, w: World, readable: bool) {
    && w.runs <= w.broker.delivered <= Budget(setting)
    && (w.broker.stored && w.broker.lease.None? ==> w.handlers == map[])
    && (w.broker.stored && w.broker.lease.None? && w.broker.delivered > 0 ==> w.broker.delivered < setting.maxDeliveries)
    && (forall id | id in w.handlers :: w.handlers[id].number == w.broker.delivered)
    && (forall id | id in w.handlers :: readable ==> w.handlers[id].deliveries == w.broker.delivered)
    && (forall a, b | a in w.handlers && b in w.handlers :: a == b)
  }

  lemma StepWithinBudget(setting: Setting, w: World, e: Event, readable: bool)
    requires Enabled(w, e) && Counted(w) && WithinBudget(setting, w, readable)
    requires readable || setting.maxDeliveries <= 1
    requires e.Finish? ==> e.landed
    requires e.Deliver? ==> w.broker.lease.None? && (readable ==> e.readable)
    ensures WithinBudget(setting, Next(setting, w, e), readable)
  {}

  lemma {:induction false} CleanStaysWithinBudget(setting: Setting, events: seq<Event>, readable: bool, n: nat)
    requires Possible(setting, events) && Clean(setting, events, readable) && n <= |events|
    requires readable || setting.maxDeliveries <= 1
    ensures Counted(Before(setting, events, n)) && WithinBudget(setting, Before(setting, events, n), readable)
  {
    if n == 0 {
      assert events[..0] == [];
    } else {
      CleanStaysWithinBudget(setting, events, readable, n - 1);
      StepOf(setting, events, n - 1);
      assert CleanAt(setting, events, n - 1, readable);
      StepWithinBudget(setting, Before(setting, events, n - 1), events[n - 1], readable);
      PrefixPossible(setting, events, n);
      DeliveriesCounted(setting, events[..n]);
    }
  }

  lemma {:induction false} UndecodableNeverRuns(setting: Setting, events: seq<Event>)
    requires Possible(setting, events) && !setting.decodable
    ensures After(setting, events).runs == 0
  {
    if events != [] {
      UndecodableNeverRuns(setting, events[..|events| - 1]);
    }
  }

  /** Whether some clean run of `n` failed attempts, all handed back, is possible. */
  ghost predicate CanFail(setting: Setting, n: nat, readable: bool, events: seq<Event>) {
    && Possible(setting, events) && Clean(setting, events, readable)
    && var w := After(setting, events);
       w.broker.stored && w.broker.lease.None? && w.broker.now >= w.broker.availableAt
       && w.broker.delivered == n && w.handlers == map[] && w.runs == n
  }

  lemma Extended(setting: Setting, events: seq<Event>, e: Event, readable: bool)
    requires Possible(setting, events) && Clean(setting, events, readable) && Enabled(After(setting, events), e)
    requires e.Finish? ==> e.landed
    requires e.Deliver? ==> After(setting, events).broker.lease.None? && (readable ==> e.readable)
    ensures Possible(setting, events + [e]) && Clean(setting, events + [e], readable)
    ensures After(setting, events + [e]) == Next(setting, After(setting, events), e)
  {
    var all := events + [e];
    assert all[..|all| - 1] == events;
    forall i | 0 <= i < |all| ensures CleanAt(setting, all, i, readable) {
      if i < |events| {
        assert all[..i] == events[..i];
        assert CleanAt(setting, events, i, readable);
      } else {
        assert all[..i] == events;
      }
    }
  }

  lemma {:induction false} FailedAttempts(setting: Setting, n: nat, readable: bool) returns (events: seq<Event>)
    requires setting.decodable && setting.maxDeliveries >= 2
    requires readable ==> n < setting.maxDeliveries
    ensures CanFail(setting, n, readable, events)
  {
    if n == 0 {
      events := [];
    } else {
      events := FailedAttempts(setting, n - 1, readable);
      Extended(setting, events, Deliver(0, readable), readable);
      events := events + [Deliver(0, readable)];
      Extended(setting, events, Finish(0, true, true), readable);
      events := events + [Finish(0, true, true)];
      var b := After(setting, events).broker;
      var delay := if b.now < b.availableAt then b.availableAt - b.now else 0;
      Extended(setting, events, Wait(delay), readable);
      events := events + [Wait(delay)];
    }
  }

  /**
   When every settlement lands and no deadline lapses, the handler runs at most `max(1, maxDeliveries)`
   times, if and only if the counts can be read, there is nothing to count, or the payload does not
   decode.
   */
  lemma BudgetIff(setting: Setting, readable: bool)
    ensures (forall events | Possible(setting, events) && Clean(setting, events, readable) ::
               After(setting, events).runs <= Budget(setting))
       <==> readable || setting.maxDeliveries <= 1 || !setting.decodable
  {
    if readable || setting.maxDeliveries <= 1 || !setting.decodable {
      forall events | Possible(setting, events) && Clean(setting, events, readable)
        ensures After(setting, events).runs <= Budget(setting)
      {
        if setting.decodable {
          CleanStaysWithinBudget(setting, events, readable, |events|);
          assert events[..|events|] == events;
        } else {
          UndecodableNeverRuns(setting, events);
        }
      }
    } else {
      var events := FailedAttempts(setting, Budget(setting) + 1, readable);
    }
  }

  lemma LastAttempt(setting: Setting, failed: seq<Event>, n: nat) returns (events: seq<Event>)
    requires CanFail(setting, n, true, failed) && setting.decodable && n + 1 >= setting.maxDeliveries
    ensures Possible(setting, events) && Clean(setting, events, true)
    ensures After(setting, events).runs == n + 1 && !After(setting, events).broker.stored
  {
    Extended(setting, failed, Deliver(0, true), true);
    var delivered := failed + [Deliver(0, true)];
    Extended(setting, delivered, Finish(0, true, true), true);
    events := delivered + [Finish(0, true, true)];
  }

  /** The budget is spent: a message that keeps failing is handled exactly that often. */
  lemma BudgetReached(setting: Setting) returns (events: seq<Event>)
    requires setting.decodable
    ensures Possible(setting, events) && Clean(setting, events, true)
    ensures After(setting, events).runs == Budget(setting) && !After(setting, events).broker.stored
  {
    if setting.maxDeliveries >= 2 {
      events := FailedAttempts(setting, setting.maxDeliveries - 1, true);
    } else {
      events := [];
    }
    events := LastAttempt(setting, events, Budget(setting) - 1);
  }

  // ---------------------------------------------------------------------------------------
  // One handler at a time
  // ---------------------------------------------------------------------------------------

  /**
   A run in which every delivery in hand sends a heartbeat at most `gap` seconds after the one before
   it, and at most `allowed` of them in a row are lost.
   */
  predicate Disciplined(setting: Setting, events: seq<Event>, gap: nat, allowed: nat)
    requires Possible(setting, events)
  {
    forall i | 0 <= i < |events| :: Timely(Before(setting, events, i), events[i], gap, allowed)
  }

  predicate Timely(w: World, e: Event, gap: nat, allowed: nat) {
    match e
    case Wait(seconds) =>
      forall id | id in w.handlers :: w.broker.now + seconds <= w.handlers[id].beatAt + gap
    case Beat(id, landed) => !landed && id in w.handlers ==> w.handlers[id].lost < allowed
    case _ => true
  }

  predicate AtMostOne(w: World) {
    forall a, b | a in w.handlers && b in w.handlers :: a == b
  }

  /** The claim of a delivery in hand is open, and was renewed not too long ago. */
  predicate Claimed(b: Broker, h: Handling, ackWait: nat, gap: nat, allowed: nat) {
    && b.stored && b.lease == Some(h.renewedAt + ackWait)
    && h.lost <= allowed
    && h.beatAt <= b.now <= h.beatAt + gap
    && h.beatAt <= h.renewedAt + h.lost * gap
  }

  predicate Exclusive(setting: Setting, w: World, gap: nat, allowed: nat) {
    AtMostOne(w) && forall id | id in w.handlers :: Claimed(w.broker, w.handlers[id], setting.ackWait, gap, allowed)
  }

  lemma NotClaimed(b: Broker, h: Handling, ackWait: nat, gap: nat, allowed: nat)
    requires Deliverable(b) && (allowed + 1) * gap < ackWait
    ensures !Claimed(b, h, ackWait, gap, allowed)
  {
    if h.lost <= allowed {
      assert h.lost * gap <= allowed * gap;
    }
  }

  lemma BeatKeepsClaim(b: Broker, h: Handling, ackWait: nat, gap: nat, allowed: nat, landed: bool)
    requires Claimed(b, h, ackWait, gap, allowed) && (!landed ==> h.lost < allowed)
    ensures Claimed(Progressed(b, ackWait, landed), Beaten(h, b.now, landed), ackWait, gap, allowed)
  {
    assert (h.lost + 1) * gap == h.lost * gap + gap;
  }

  lemma StepStaysExclusive(setting: Setting, w: World, e: Event, gap: nat, allowed: nat)
    requires Enabled(w, e) && Timely(w, e, gap, allowed) && Exclusive(setting, w, gap, allowed)
    requires (allowed + 1) * gap < setting.ackWait
    ensures Exclusive(setting, Next(setting, w, e), gap, allowed)
  {
    if e.Deliver? {
      forall h ensures !Claimed(w.broker, h, setting.ackWait, gap, allowed) {
        NotClaimed(w.broker, h, setting.ackWait, gap, allowed);
      }
      assert w.handlers == map[];
    } else if e.Beat? {
      BeatKeepsClaim(w.broker, w.handlers[e.worker], setting.ackWait, gap, allowed, e.landed);
    }
  }

  lemma {:induction false} StaysExclusive(setting: Setting, events: seq<Event>, gap: nat, allowed: nat, n: nat)
    requires Possible(setting, events) && Disciplined(setting, events, gap, allowed) && n <= |events|
    requires (allowed + 1) * gap < setting.ackWait
    ensures Exclusive(setting, Before(setting, events, n), gap, allowed)
  {
    if n == 0 {
      assert events[..0] == [];
    } else {
      StaysExclusive(setting, events, gap, allowed, n - 1);
      StepOf(setting, events, n - 1);
      StepStaysExclusive(setting, Before(setting, events, n - 1), events[n - 1], gap, allowed);
    }
  }

  lemma TimelyExtended(setting: Setting, events: seq<Event>, e: Event, gap: nat, allowed: nat)
    requires Possible(setting, events) && Disciplined(setting, events, gap, allowed)
    requires Enabled(After(setting, events), e) && Timely(After(setting, events), e, gap, allowed)
    ensures Possible(setting, events + [e]) && Disciplined(setting, events + [e], gap, allowed)
    ensures After(setting, events + [e]) == Next(setting, After(setting, events), e)
  {
    var all := events + [e];
    assert all[..|all| - 1] == events;
    forall i | 0 <= i < |all| ensures Timely(Before(setting, all, i), all[i], gap, allowed) {
      if i < |events| {
        assert all[..i] == events[..i];
        assert Timely(Before(setting, events, i), events[i], gap, allowed);
      } else {
        assert all[..i] == events;
      }
    }
  }

  /** A delivery whose first `n` heartbeats are all lost, each sent as late as it may be. */
  lemma {:induction false} LostBeats(setting: Setting, gap: nat, allowed: nat, n: nat) returns (events: seq<Event>)
    requires n <= allowed
    ensures Possible(setting, events) && Disciplined(setting, events, gap, allowed)
    ensures After(setting, events).handlers.Keys == {0}
    ensures var w := After(setting, events);
            && w.broker == Broker(true, 1, Some(setting.ackWait), 0, n * gap)
            && w.handlers[0].beatAt == n * gap && w.handlers[0].lost == n
  {
    if n == 0 {
      TimelyExtended(setting, [], Deliver(0, true), gap, allowed);
      events := [] + [Deliver(0, true)];
    } else {
      events := LostBeats(setting, gap, allowed, n - 1);
      TimelyExtended(setting, events, Wait(gap), gap, allowed);
      events := events + [Wait(gap)];
      TimelyExtended(setting, events, Beat(0, false), gap, allowed);
      events := events + [Beat(0, false)];
      assert n * gap == (n - 1) * gap + gap;
    }
  }

  /** At most one handler runs at any time, in every run that loses at most `allowed` heartbeats in a row. */
  ghost predicate NeverTwice(setting: Setting, gap: nat, allowed: nat) {
    forall events | Possible(setting, events) && Disciplined(setting, events, gap, allowed) ::
      AtMostOne(After(setting, events))
  }

  /** The handler is never doubled if and only if one more gap than may be lost still fits the deadline. */
  lemma ExclusiveIff(setting: Setting, gap: nat, allowed: nat)
    ensures NeverTwice(setting, gap, allowed) <==> (allowed + 1) * gap < setting.ackWait
  {
    if (allowed + 1) * gap < setting.ackWait {
      forall events | Possible(setting, events) && Disciplined(setting, events, gap, allowed)
        ensures AtMostOne(After(setting, events))
      {
        StaysExclusive(setting, events, gap, allowed, |events|);
        assert events[..|events|] == events;
      }
    } else {
      var events := LostBeats(setting, gap, allowed, allowed);
      TimelyExtended(setting, events, Wait(gap), gap, allowed);
      events := events + [Wait(gap)];
      assert (allowed + 1) * gap == allowed * gap + gap;
      TimelyExtended(setting, events, Deliver(1, true), gap, allowed);
      events := events + [Deliver(1, true)];
      assert 0 in After(setting, events).handlers && 1 in After(setting, events).handlers;
    }
  }

  const TASK_ACK_WAIT: nat := 300
  const TASK_ACK_HEARTBEAT: nat := TASK_ACK_WAIT / 5

  /** The task heartbeat tolerates three losses in a row and not four. */
  lemma TaskHeartbeatTolerates(setting: Setting, allowed: nat)
    requires setting.ackWait == TASK_ACK_WAIT
    ensures NeverTwice(setting, TASK_ACK_HEARTBEAT, allowed) <==> allowed <= 3
  {
    assert (allowed + 1) * TASK_ACK_HEARTBEAT < TASK_ACK_WAIT <==> allowed <= 3;
    ExclusiveIff(setting, TASK_ACK_HEARTBEAT, allowed);
  }

  // ---------------------------------------------------------------------------------------
  // A message is never stuck
  // ---------------------------------------------------------------------------------------

  function LongestBackoff(backoff: nat -> nat, n: nat): nat {
    if n == 0 then 0
    else
      var rest := LongestBackoff(backoff, n - 1);
      if backoff(n) > rest then backoff(n) else rest
  }

  lemma {:induction false} BackoffBounded(backoff: nat -> nat, n: nat, k: nat)
    requires 1 <= k <= n
    ensures backoff(k) <= LongestBackoff(backoff, n)
  {
    if k < n {
      BackoffBounded(backoff, n - 1, k);
    }
  }

  lemma {:induction false} WaitIsBounded(setting: Setting, events: seq<Event>)
    requires Possible(setting, events)
    ensures var b := After(setting, events).broker;
            && (b.lease.Some? ==> b.lease.value <= b.now + setting.ackWait)
            && b.availableAt <= b.now + LongestBackoff(setting.backoff, setting.maxDeliveries)
  {
    if events != [] {
      var init, e := events[..|events| - 1], events[|events| - 1];
      WaitIsBounded(setting, init);
      if e.Finish? {
        DeliveriesCounted(setting, init);
        var deliveries := After(setting, init).handlers[e.worker].deliveries;
        if deliveries < setting.maxDeliveries {
          BackoffBounded(setting.backoff, setting.maxDeliveries, deliveries);
        }
      }
    }
  }

  /**
   After any run, crashes and lost settlements included, a message that is still in the stream can be
   delivered again once the deadline or the longest backoff has gone by.
   */
  lemma NeverStuck(setting: Setting, events: seq<Event>, worker: nat, seconds: nat)
    requires Possible(setting, events) && After(setting, events).broker.stored
    requires worker !in After(setting, events).handlers
    requires seconds >= setting.ackWait && seconds >= LongestBackoff(setting.backoff, setting.maxDeliveries)
    ensures Possible(setting, events + [Wait(seconds)] + [Deliver(worker, true)])
  {
    WaitIsBounded(setting, events);
    var once := events + [Wait(seconds)];
    assert once[..|once| - 1] == events;
    var twice := once + [Deliver(worker, true)];
    assert twice[..|twice| - 1] == once;
  }
}
