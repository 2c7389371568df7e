/**
 Several consumers on one message, each in its own turn of the loop, their steps interleaved in any
 order. Time is common to all of them: it passes only up to the next instant at which one of them acts.
 */
module Consumers {
  import opened Options
  import opened WorkQueue
  import opened Consumer

  /** A consumer inside a delivery: what the world decides about it, when it was claimed, the heartbeats sent. */
  datatype Turn = Turn(pull: Pull, since: nat, beats: nat)

  /** The protocol's world, and the turns of the consumers inside a delivery; the others wait for one. */
  datatype Crew = Crew(world: World, turns: map<nat, Turn>)

  datatype Move = Pass(seconds: nat) | Claim(id: nat, pull: Pull) | Act(id: nat) | Die(id: nat)

  /** A payload that does not decode is settled at once. */
  function WorkTime(setting: Setting, pull: Pull): nat { if setting.decodable then pull.duration else 0 }

  /** Whether the consumer's next act is a heartbeat; otherwise it is the settlement. */
  predicate BeatIsNext(setting: Setting, heartbeat: Option<nat>, t: Turn) {
    heartbeat.Some? && (t.beats + 1) * heartbeat.value < WorkTime(setting, t.pull)
  }

  /** When the last heartbeat left. */
  function BeatAt(heartbeat: Option<nat>, t: Turn): nat {
    if heartbeat.Some? then t.since + t.beats * heartbeat.value else t.since
  }

  /** When the consumer acts next. */
  function Due(setting: Setting, heartbeat: Option<nat>, t: Turn): nat {
    if BeatIsNext(setting, heartbeat, t) then t.since + (t.beats + 1) * heartbeat.value
    else t.since + WorkTime(setting, t.pull)
  }

  predicate Can(setting: Setting, heartbeat: Option<nat>, crew: Crew, move: Move) {
    match move
    case Pass(seconds) =>
      forall id | id in crew.turns :: crew.world.broker.now + seconds <= Due(setting, heartbeat, crew.turns[id])
    case Claim(id, _) => id !in crew.turns && Deliverable(crew.world.broker)
    case Act(id) => id in crew.turns && crew.world.broker.now == Due(setting, heartbeat, crew.turns[id])
    case Die(id) => id in crew.turns
  }

  /** What the broker gets to see of a move. */
  function EventOf(setting: Setting, heartbeat: Option<nat>, crew: Crew, move: Move): Event
    requires Can(setting, heartbeat, crew, move)
  {
    match move
    case Pass(seconds) => Wait(seconds)
    case Claim(id, pull) => Deliver(id, pull.readable)
    case Act(id) =>
      var t := crew.turns[id];
      if BeatIsNext(setting, heartbeat, t) then Beat(id, t.pull.lands(t.beats + 1))
      else Finish(id, t.pull.failed, t.pull.settles)
    case Die(id) => WorkQueue.Crash(id)
  }

  function TurnsAfter(setting: Setting, heartbeat: Option<nat>, crew: Crew, move: Move): map<nat, Turn>
    requires Can(setting, heartbeat, crew, move)
  {
    match move
    case Pass(_) => crew.turns
    case Claim(id, pull) => crew.turns[id := Turn(pull, crew.world.broker.now, 0)]
    case Act(id) =>
      var t := crew.turns[id];
      if BeatIsNext(setting, heartbeat, t) then crew.turns[id := t.(beats := t.beats + 1)] else crew.turns - {id}
    case Die(id) => crew.turns - {id}
  }

  /** The consumers inside a delivery are the ones that have the message in hand. */
  predicate Tied(crew: Crew) { crew.turns.Keys == crew.world.handlers.Keys }

  function Moved(setting: Setting, heartbeat: Option<nat>, crew: Crew, move: Move): (next: Crew)
    requires Tied(crew) && Can(setting, heartbeat, crew, move)
    ensures Tied(next)
  {
    Crew(Next(setting, crew.world, EventOf(setting, heartbeat, crew, move)), TurnsAfter(setting, heartbeat, crew, move))
  }

  /** Whether the moves can be made one after the other, and where they lead. */
  function Reached(setting: Setting, heartbeat: Option<nat>, moves: seq<Move>): (crew: Option<Crew>)
    ensures crew.Some? ==> Tied(crew.value)
  {
    if moves == [] then Some(Crew(START, map[]))
    else
      var before := Reached(setting, heartbeat, moves[..|moves| - 1]);
      var move := moves[|moves| - 1];
      if before.Some? && Can(setting, heartbeat, before.value, move) then Some(Moved(setting, heartbeat, before.value, move))
      else None
  }

  // ---------------------------------------------------------------------------------------
  // Each consumer goes through its own turn
  // ---------------------------------------------------------------------------------------

  /** The heartbeats a whole turn sends. */
  function TurnBeats(setting: Setting, heartbeat: Option<nat>, pull: Pull): nat
    requires heartbeat.Some? ==> heartbeat.value > 0
  {
    if heartbeat.Some? then Ticks(heartbeat.value, WorkTime(setting, pull)) else 0
  }

  /** A consumer as far into its turn as the clock says, and the delivery in its hand. */
  predicate InTurn(setting: Setting, heartbeat: Option<nat>, t: Turn, h: Handling, now: nat)
    requires heartbeat.Some? ==> heartbeat.value > 0
  {
    && t.beats <= TurnBeats(setting, heartbeat, t.pull)
    && h.beatAt == BeatAt(heartbeat, t) <= now <= Due(setting, heartbeat, t)
    && h.lost == Streak(t.pull.lands, t.beats)
    && h.deliveries == DeliveryCount(h.number, t.pull.readable)
  }

  predicate AllInTurn(setting: Setting, heartbeat: Option<nat>, crew: Crew)
    requires Tied(crew) && (heartbeat.Some? ==> heartbeat.value > 0)
  {
    forall id | id in crew.turns ::
      InTurn(setting, heartbeat, crew.turns[id], crew.world.handlers[id], crew.world.broker.now)
  }

  lemma BeatInTurn(setting: Setting, every: nat, t: Turn, h: Handling, now: nat)
    requires every > 0 && InTurn(setting, Some(every), t, h, now)
    requires BeatIsNext(setting, Some(every), t) && now == Due(setting, Some(every), t)
    ensures t.beats + 1 <= TurnBeats(setting, Some(every), t.pull)
    ensures InTurn(setting, Some(every), t.(beats := t.beats + 1), Beaten(h, now, t.pull.lands(t.beats + 1)), now)
  {
    TickIsCounted(every, WorkTime(setting, t.pull), t.beats + 1);
    assert (t.beats + 2) * every == (t.beats + 1) * every + every;
  }

  lemma ClaimInTurn(setting: Setting, heartbeat: Option<nat>, pull: Pull, h: Handling, now: nat)
    requires heartbeat.Some? ==> heartbeat.value > 0
    requires h.beatAt == now && h.lost == 0 && h.deliveries == DeliveryCount(h.number, pull.readable)
    ensures InTurn(setting, heartbeat, Turn(pull, now, 0), h, now)
  {}

  lemma LaterInTurn(setting: Setting, heartbeat: Option<nat>, t: Turn, h: Handling, now: nat, later: nat)
    requires heartbeat.Some? ==> heartbeat.value > 0
    requires InTurn(setting, heartbeat, t, h, now) && now <= later <= Due(setting, heartbeat, t)
    ensures InTurn(setting, heartbeat, t, h, later)
  {}

  lemma OthersUntouched(setting: Setting, heartbeat: Option<nat>, crew: Crew, move: Move, id: nat)
    requires Tied(crew) && Can(setting, heartbeat, crew, move) && !move.Pass? && id != move.id && id in crew.turns
    ensures var next := Moved(setting, heartbeat, crew, move);
            && next.world.broker.now == crew.world.broker.now
            && id in next.turns && next.turns[id] == crew.turns[id]
            && next.world.handlers[id] == crew.world.handlers[id]
  {}

  lemma MoveKeepsTurn(setting: Setting, heartbeat: Option<nat>, crew: Crew, move: Move, id: nat)
    requires heartbeat.Some? ==> heartbeat.value > 0
    requires Tied(crew) && Can(setting, heartbeat, crew, move) && id in TurnsAfter(setting, heartbeat, crew, move)
    requires id in crew.turns ==> InTurn(setting, heartbeat, crew.turns[id], crew.world.handlers[id], crew.world.broker.now)
    ensures var next := Moved(setting, heartbeat, crew, move);
            InTurn(setting, heartbeat, next.turns[id], next.world.handlers[id], next.world.broker.now)
  {
    var next := Moved(setting, heartbeat, crew, move);
    if move.Pass? {
      LaterInTurn(setting, heartbeat, crew.turns[id], crew.world.handlers[id], crew.world.broker.now, next.world.broker.now);
    } else if id != move.id {
      OthersUntouched(setting, heartbeat, crew, move, id);
    } else if move.Claim? {
      ClaimInTurn(setting, heartbeat, move.pull, next.world.handlers[id], crew.world.broker.now);
    } else {
      BeatInTurn(setting, heartbeat.value, crew.turns[id], crew.world.handlers[id], crew.world.broker.now);
    }
  }

  lemma MoveKeepsTurns(setting: Setting, heartbeat: Option<nat>, crew: Crew, move: Move)
    requires heartbeat.Some? ==> heartbeat.value > 0
    requires Tied(crew) && AllInTurn(setting, heartbeat, crew) && Can(setting, heartbeat, crew, move)
    ensures AllInTurn(setting, heartbeat, Moved(setting, heartbeat, crew, move))
  {
    var next := Moved(setting, heartbeat, crew, move);
    forall id | id in next.turns
      ensures InTurn(setting, heartbeat, next.turns[id], next.world.handlers[id], next.world.broker.now)
    {
      MoveKeepsTurn(setting, heartbeat, crew, move, id);
    }
  }

  lemma {:induction false} StaysInTurn(setting: Setting, heartbeat: Option<nat>, moves: seq<Move>)
    requires heartbeat.Some? ==> heartbeat.value > 0
    requires Reached(setting, heartbeat, moves).Some?
    ensures AllInTurn(setting, heartbeat, Reached(setting, heartbeat, moves).value)
  {
    if moves != [] {
      var init := moves[..|moves| - 1];
      StaysInTurn(setting, heartbeat, init);
      MoveKeepsTurns(setting, heartbeat, Reached(setting, heartbeat, init).value, moves[|moves| - 1]);
    }
  }

  lemma WholeTurn(setting: Setting, heartbeat: Option<nat>, t: Turn, h: Handling, now: nat)
    requires heartbeat.Some? ==> heartbeat.value > 0
    requires InTurn(setting, heartbeat, t, h, now) && !BeatIsNext(setting, heartbeat, t)
    ensures t.beats == TurnBeats(setting, heartbeat, t.pull)
  {
    if heartbeat.Some? {
      TicksAreAll(heartbeat.value, WorkTime(setting, t.pull), t.beats);
    }
  }

  /**
   However the turns interleave, each is the loop's own: a consumer that settles has worked as long as
   its work takes, has sent the heartbeats of the whole turn, and settles by the count it read.
   */
  lemma SettlesAfterItsTurn(setting: Setting, heartbeat: Option<nat>, moves: seq<Move>, id: nat)
    requires heartbeat.Some? ==> heartbeat.value > 0
    requires Reached(setting, heartbeat, moves).Some?
    requires Can(setting, heartbeat, Reached(setting, heartbeat, moves).value, Act(id))
    requires !BeatIsNext(setting, heartbeat, Reached(setting, heartbeat, moves).value.turns[id])
    ensures var crew := Reached(setting, heartbeat, moves).value;
            var t, h := crew.turns[id], crew.world.handlers[id];
            && t.beats == TurnBeats(setting, heartbeat, t.pull)
            && crew.world.broker.now == t.since + WorkTime(setting, t.pull)
            && Moved(setting, heartbeat, crew, Act(id)).world.broker ==
                 Settled(setting, crew.world.broker, t.pull.failed, DeliveryCount(h.number, t.pull.readable), t.pull.settles)
  {
    StaysInTurn(setting, heartbeat, moves);
    var crew := Reached(setting, heartbeat, moves).value;
    assert InTurn(setting, heartbeat, crew.turns[id], crew.world.handlers[id], crew.world.broker.now);
    WholeTurn(setting, heartbeat, crew.turns[id], crew.world.handlers[id], crew.world.broker.now);
  }

  // ---------------------------------------------------------------------------------------
  // Every interleaving is a run of the protocol
  // ---------------------------------------------------------------------------------------

  /** What a delivery must keep to for its claim to last: nothing, if it is settled at once. */
  predicate Keeps(setting: Setting, heartbeat: Option<nat>, pull: Pull, gap: nat, allowed: nat)
    requires heartbeat.Some? ==> heartbeat.value > 0
  {
    setting.decodable ==> GapHolds(heartbeat, pull, gap) && FewLost(heartbeat, pull, allowed)
  }

  ghost predicate AllKeep(setting: Setting, heartbeat: Option<nat>, moves: seq<Move>, gap: nat, allowed: nat)
    requires heartbeat.Some? ==> heartbeat.value > 0
  {
    forall move | move in moves && move.Claim? :: Keeps(setting, heartbeat, move.pull, gap, allowed)
  }

  predicate TurnsKeep(setting: Setting, heartbeat: Option<nat>, crew: Crew, gap: nat, allowed: nat)
    requires heartbeat.Some? ==> heartbeat.value > 0
  {
    forall id | id in crew.turns :: Keeps(setting, heartbeat, crew.turns[id].pull, gap, allowed)
  }

  lemma {:induction false} ReachedTurnsKeep(setting: Setting, heartbeat: Option<nat>, moves: seq<Move>, gap: nat, allowed: nat)
    requires heartbeat.Some? ==> heartbeat.value > 0
    requires Reached(setting, heartbeat, moves).Some? && AllKeep(setting, heartbeat, moves, gap, allowed)
    ensures TurnsKeep(setting, heartbeat, Reached(setting, heartbeat, moves).value, gap, allowed)
  {
    if moves != [] {
      var init := moves[..|moves| - 1];
      assert forall move | move in init :: move in moves;
      ReachedTurnsKeep(setting, heartbeat, init, gap, allowed);
      assert moves[|moves| - 1] in moves;
    }
  }

  /** The clock does not run past the next heartbeat's deadline. */
  lemma DueWithinGap(setting: Setting, heartbeat: Option<nat>, t: Turn, gap: nat, allowed: nat)
    requires heartbeat.Some? ==> heartbeat.value > 0
    requires Keeps(setting, heartbeat, t.pull, gap, allowed)
    ensures Due(setting, heartbeat, t) <= BeatAt(heartbeat, t) + gap
  {
    if heartbeat.Some? {
      assert (t.beats + 1) * heartbeat.value == t.beats * heartbeat.value + heartbeat.value;
    }
  }

  lemma MoveIsTimely(setting: Setting, heartbeat: Option<nat>, crew: Crew, move: Move, gap: nat, allowed: nat)
    requires heartbeat.Some? ==> heartbeat.value > 0
    requires Tied(crew) && AllInTurn(setting, heartbeat, crew) && Can(setting, heartbeat, crew, move)
    requires TurnsKeep(setting, heartbeat, crew, gap, allowed)
    ensures Timely(crew.world, EventOf(setting, heartbeat, crew, move), gap, allowed)
  {
    if move.Pass? {
      forall id | id in crew.turns
        ensures crew.world.broker.now + move.seconds <= crew.world.handlers[id].beatAt + gap
      {
        DueWithinGap(setting, heartbeat, crew.turns[id], gap, allowed);
      }
    } else if move.Act? && BeatIsNext(setting, heartbeat, crew.turns[move.id]) {
      var t := crew.turns[move.id];
      BeatInTurn(setting, heartbeat.value, t, crew.world.handlers[move.id], crew.world.broker.now);
      assert Streak(t.pull.lands, t.beats + 1) <= allowed;
    }
  }

  /**
   Any interleaving of any number of consumers is a run of the protocol, and a disciplined one when each
   delivery keeps to its gap and loses few heartbeats: no silent loss, the delivery budget and the
   exclusive claim hold of it.
   */
  lemma {:induction false} InterleavingIsRun(setting: Setting, heartbeat: Option<nat>, moves: seq<Move>,
                                             disciplined: bool, gap: nat, allowed: nat) returns (events: seq<Event>)
    requires heartbeat.Some? ==> heartbeat.value > 0
    requires Reached(setting, heartbeat, moves).Some?
    requires disciplined ==> AllKeep(setting, heartbeat, moves, gap, allowed)
    ensures Possible(setting, events) && After(setting, events) == Reached(setting, heartbeat, moves).value.world
    ensures disciplined ==> Disciplined(setting, events, gap, allowed)
  {
    if moves == [] {
      events := [];
    } else {
      var init, move := moves[..|moves| - 1], moves[|moves| - 1];
      var before := Reached(setting, heartbeat, init).value;
      assert forall m | m in init :: m in moves;
      events := InterleavingIsRun(setting, heartbeat, init, disciplined, gap, allowed);
      var e := EventOf(setting, heartbeat, before, move);
      if disciplined {
        StaysInTurn(setting, heartbeat, init);
        ReachedTurnsKeep(setting, heartbeat, init, gap, allowed);
        MoveIsTimely(setting, heartbeat, before, move, gap, allowed);
      }
      OneMore(setting, events, e, disciplined, gap, allowed);
      events := events + [e];
    }
  }

  // ---------------------------------------------------------------------------------------
  // One handler at a time, whoever else is there
  // ---------------------------------------------------------------------------------------

  predicate OneTurn(crew: Crew) {
    forall a, b | a in crew.turns && b in crew.turns :: a == b
  }

  /** No interleaving in which each delivery loses at most `allowed` heartbeats in a row has two turns at once. */
  ghost predicate NeverDoubled(setting: Setting, every: nat, allowed: nat)
    requires every > 0
  {
    forall moves | Reached(setting, Some(every), moves).Some? && AllKeep(setting, Some(every), moves, every, allowed) ::
      OneTurn(Reached(setting, Some(every), moves).value)
  }

  lemma KeptExclusive(setting: Setting, heartbeat: Option<nat>, moves: seq<Move>, gap: nat, allowed: nat)
    requires heartbeat.Some? ==> heartbeat.value > 0
    requires Reached(setting, heartbeat, moves).Some? && AllKeep(setting, heartbeat, moves, gap, allowed)
    requires (allowed + 1) * gap < setting.ackWait
    ensures OneTurn(Reached(setting, heartbeat, moves).value)
  {
    var events := InterleavingIsRun(setting, heartbeat, moves, true, gap, allowed);
    ExclusiveIff(setting, gap, allowed);
    assert AtMostOne(After(setting, events));
  }

  lemma Onward(setting: Setting, heartbeat: Option<nat>, moves: seq<Move>, move: Move)
    requires Reached(setting, heartbeat, moves).Some?
    requires Can(setting, heartbeat, Reached(setting, heartbeat, moves).value, move)
    ensures Reached(setting, heartbeat, moves + [move]) ==
            Some(Moved(setting, heartbeat, Reached(setting, heartbeat, moves).value, move))
  {
    assert (moves + [move])[..|moves|] == moves;
  }

  /** Work that ends with the gap after `allowed` heartbeats, none of which lands. */
  function Unheard(every: nat, allowed: nat): Pull {
    Pull(0, true, (allowed + 1) * every, false, (n: nat) => false, true)
  }

  lemma {:induction false} UnheardStreak(every: nat, allowed: nat, n: nat)
    ensures Streak(Unheard(every, allowed).lands, n) == n
  {
    if n > 0 { UnheardStreak(every, allowed, n - 1); }
  }

  lemma UnheardKeeps(setting: Setting, every: nat, allowed: nat)
    requires every > 0
    ensures Keeps(setting, Some(every), Unheard(every, allowed), every, allowed)
  {
    forall n | 0 <= n <= Ticks(every, (allowed + 1) * every)
      ensures Streak(Unheard(every, allowed).lands, n) <= allowed
    {
      UnheardStreak(every, allowed, n);
      FewerTimes(Ticks(every, (allowed + 1) * every), allowed + 1, every);
    }
  }

  /** Consumer 0 has the message and none of its first `n` heartbeats has landed. */
  ghost predicate Hushed(setting: Setting, every: nat, allowed: nat, crew: Crew, n: nat) {
    && crew.turns == map[0 := Turn(Unheard(every, allowed), 0, n)]
    && crew.world.broker == Broker(true, 1, Some(setting.ackWait), 0, n * every)
  }

  lemma LaterTimes(a: nat, b: nat, every: nat)
    requires a < b && every > 0
    ensures a * every < b * every && a * every + every <= b * every
    ensures a > 0 ==> a * every == (a - 1) * every + every
  {
    var more := b - a;
    assert b * every == a * every + more * every;
    assert more * every == (more - 1) * every + every && (more - 1) * every >= 0;
    if a > 0 { assert a * every == (a - 1) * every + every; }
  }

  lemma StillHushed(setting: Setting, every: nat, allowed: nat, crew: Crew, n: nat) returns (late: Crew)
    requires setting.decodable && every > 0 && n <= allowed && Tied(crew) && Hushed(setting, every, allowed, crew, n)
    ensures Can(setting, Some(every), crew, Pass(every)) && late == Moved(setting, Some(every), crew, Pass(every))
    ensures late.turns == crew.turns && late.world.broker == Waited(crew.world.broker, every)
    ensures (n + 1) * every == late.world.broker.now
    ensures n < allowed ==> Can(setting, Some(every), late, Act(0))
    ensures n < allowed ==> Hushed(setting, every, allowed, Moved(setting, Some(every), late, Act(0)), n + 1)
  {
    LaterTimes(n, allowed + 1, every);
    if n < allowed { LaterTimes(n + 1, allowed + 1, every); }
    late := Moved(setting, Some(every), crew, Pass(every));
  }

  lemma {:induction false} Hush(setting: Setting, every: nat, allowed: nat, n: nat) returns (moves: seq<Move>)
    requires setting.decodable && every > 0 && n <= allowed
    ensures Reached(setting, Some(every), moves).Some?
    ensures Hushed(setting, every, allowed, Reached(setting, Some(every), moves).value, n)
    ensures AllKeep(setting, Some(every), moves, every, allowed)
  {
    if n == 0 {
      UnheardKeeps(setting, every, allowed);
      Onward(setting, Some(every), [], Claim(0, Unheard(every, allowed)));
      moves := [] + [Claim(0, Unheard(every, allowed))];
    } else {
      moves := Hush(setting, every, allowed, n - 1);
      var late := StillHushed(setting, every, allowed, Reached(setting, Some(every), moves).value, n - 1);
      Onward(setting, Some(every), moves, Pass(every));
      moves := moves + [Pass(every)];
      Onward(setting, Some(every), moves, Act(0));
      moves := moves + [Act(0)];
    }
  }

  /** Two consumers at once: the claim lapses at the very instant the work ends. */
  lemma Doubled(setting: Setting, every: nat, allowed: nat) returns (moves: seq<Move>)
    requires every > 0 && (if setting.decodable then (allowed + 1) * every >= setting.ackWait else setting.ackWait == 0)
    ensures Reached(setting, Some(every), moves).Some? && AllKeep(setting, Some(every), moves, every, allowed)
    ensures !OneTurn(Reached(setting, Some(every), moves).value)
  {
    var pull := Unheard(every, allowed);
    UnheardKeeps(setting, every, allowed);
    if setting.decodable {
      moves := Hush(setting, every, allowed, allowed);
      var late := StillHushed(setting, every, allowed, Reached(setting, Some(every), moves).value, allowed);
      Onward(setting, Some(every), moves, Pass(every));
      moves := moves + [Pass(every)];
    } else {
      Onward(setting, Some(every), [], Claim(0, pull));
      moves := [] + [Claim(0, pull)];
    }
    Onward(setting, Some(every), moves, Claim(1, pull));
    moves := moves + [Claim(1, pull)];
    var turns := Reached(setting, Some(every), moves).value.turns;
    assert 0 in turns && 1 in turns;
  }

  /**
   Consumers that send a heartbeat `every` seconds, however many and however they interleave, never
   handle the message twice at once if and only if one heartbeat more than may be lost still fits the
   deadline; when the payload does not decode, any deadline at all will do.
   */
  lemma NeverDoubledIff(setting: Setting, every: nat, allowed: nat)
    requires every > 0
    ensures NeverDoubled(setting, every, allowed) <==>
            if setting.decodable then (allowed + 1) * every < setting.ackWait else 0 < setting.ackWait
  {
    if setting.decodable && (allowed + 1) * every < setting.ackWait {
      forall moves | Reached(setting, Some(every), moves).Some? && AllKeep(setting, Some(every), moves, every, allowed)
        ensures OneTurn(Reached(setting, Some(every), moves).value)
      {
        KeptExclusive(setting, Some(every), moves, every, allowed);
      }
    } else if !setting.decodable && 0 < setting.ackWait {
      forall moves | Reached(setting, Some(every), moves).Some? && AllKeep(setting, Some(every), moves, every, allowed)
        ensures OneTurn(Reached(setting, Some(every), moves).value)
      {
        KeptExclusive(setting, Some(every), moves, 0, 0);
      }
    } else {
      var moves := Doubled(setting, every, allowed);
    }
  }
}
