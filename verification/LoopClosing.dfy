/**
 * What is left of a connection that is no longer active: when it closed, and that its packet number spaces are empty
 * but for one challenge in one case.
 */
module LoopClosing {
  import opened Common
  import opened Frames
  import opened LoopInvariant
  import opened LoopMeaning
  import opened LoopOutcomes
  import opened LoopRuns
  import opened LoopSpec
  import opened LoopState
  import opened Recovery
  import opened SentRecords
  import FC = FlowControl
  import PayloadBudget
  import PV = PathValidation
  import Rtt

  /** Closing or draining since `at`, with every packet number space empty. */
  ghost predicate ShutAt(d: Conn, at: int) {
    (d.state.Closing? || d.state.Draining?) && d.closedAt == Some(at) && forall s :: IsEmpty(d.books.Get(s))
  }

  ghost predicate OpenOrShut(d: Conn, at: int) {
    d.state.Active? || ShutAt(d, at)
  }

  lemma ClosingShuts(c: Conn, at: int)
    requires c.state.Active?
    ensures ShutAt(ToClosing(c, at), at) && ShutAt(ToDraining(c, at), at)
  {
    hide AllCleared;
    ClosingExactly(c, at);
  }

  lemma PeerMetShuts(c: Conn, from: Endpoint, at: int, token: Option<PathToken>, tls: Option<Tls>)
    requires c.state.Active?
    ensures OpenOrShut(PeerMet(c, from, at, token, tls), at)
  {
    hide ToClosing, ShutAt, PathStep, ChallengeQueued, WithQueue, WithoutChallenge;
    ClosingShuts(c, at);
    var d := c.(peer := from);
    var e := PathStep(ChallengeRemoved(d), PV.Unchallenged);
    PathStepState(ChallengeRemoved(d), PV.Unchallenged);
    ClosingShuts(e, at);
    if token.Some? {
      StartStaysInside(d, at, token, tls);
    }
  }

  lemma DeliveredShuts(c: Conn, p: Parsed, at: int, env: PacketEnv)
    requires c.state.Active?
    ensures OpenOrShut(Delivered(c, p, at, env), at)
  {
    hide ToClosing, ShutAt, StopFrames, HasCrypto, Refreshed, FirstReset, FirstCrypto, StreamRefused;
    var c1 := ControlTaken(c, p.frames, env.refused);
    StopsStayInside(c, p.frames[..FirstReset(p.frames, env.refused, 0)]);
    ClosingShuts(c1, at);
    var c2 := CryptoTaken(c1, p.frames, env.before, env.refused);
    ClosingShuts(c2, at);
    RefreshStaysInside(c2, env.after);
    ClosingShuts(Refreshed(c2, env.after), at);
  }

  lemma FramesTakenShut(c: Conn, p: Parsed, at: int, env: PacketEnv)
    requires c.state.Active?
    ensures OpenOrShut(FramesTaken(c, p, at, env), at)
  {
    hide ToClosing, ToDraining, ShutAt, AllAllowed, PeerCloses, Recorded, Delivered;
    ClosingShuts(c, at);
    if env.retired.Some? {
      RecordedStaysInside(c, p, env.retired.value, at);
      DeliveredShuts(Recorded(c, p, env.retired.value, at), p, at, env);
    }
  }

  lemma ProcessedShuts(c: Conn, p: Parsed, from: Endpoint, size: u64, at: int, env: PacketEnv)
    requires c.state.Active?
    ensures OpenOrShut(Processed(c, p, from, size, at, env), at)
  {
    hide ShutAt, PeerMet, FramesTaken, PV.Step, WithReceived;
    var c0 := Noticed(c, p.space, p.number);
    PeerMetShuts(c0, from, at, env.token, env.before);
    var c1 := PeerMet(c0, from, at, env.token, env.before);
    if c1.state.Active? {
      FramesTakenShut(CountReceived(c1, size, at), p, at, env);
    }
  }

  lemma {:induction false} ChunksShut(c: Conn, chunks: seq<Chunk>, from: Endpoint, at: int)
    requires c.state.Active?
    ensures OpenOrShut(ChunksTaken(c, chunks, from, at), at)
    decreases chunks
  {
    hide ShutAt, ToClosing, Processed, Cleared;
    ClosingShuts(c, at);
    if chunks != [] && chunks[0].LongPacket? {
      var k, rest := chunks[0], chunks[1..];
      if c.keys.Discarded(k.space) {
        ChunksShut(ClearedSpace(c, k.space), rest, from, at);
      } else if k.parsed.Some? {
        ProcessedShuts(c, PacketIn(k.space, k.parsed.value), from, k.size, at, k.env);
        var d := Processed(c, PacketIn(k.space, k.parsed.value), from, k.size, at, k.env);
        if d.state.Active? {
          ClosingShuts(d, at);
          ChunksShut(d, rest, from, at);
        }
      }
    }
  }

  lemma DatagramShuts(c: Conn, d: Inbound, from: Endpoint, at: int, tls: Option<Tls>)
    requires c.state.Active?
    ensures OpenOrShut(DatagramTaken(c, d, from, at, tls), at)
  {
    hide ShutAt, ToClosing, ToDraining, Refreshed, ChunksTaken, Processed, Cleared;
    RefreshStaysInside(c, tls);
    var c1 := Refreshed(c, tls);
    ClosingShuts(c1, at);
    match d
    case LongDatagram(chunks) => ChunksShut(c1, chunks, from, at);
    case ShortDatagram(size, parsed, statelessReset, env) =>
      if parsed.Some? {
        ProcessedShuts(c1, PacketIn(AppSpace, parsed.value), from, size, at, env);
      }
  }

  lemma SpaceFlushedShuts(c: Conn, s: Space, at: int, tls: Option<Tls>, env: SendEnv)
    requires c.state.Active?
    ensures OpenOrShut(SpaceFlushed(c, s, at, tls, env), at)
  {
    hide ShutAt, ToClosing, Cleared, HeldBack, Sendable, PV.Allows, PV.Emitted, PayloadBudget.Front, Sent, WithQueue,
      AckEliciting;
    ClosingShuts(c, at);
    PayloadBudget.FrontIsLongest(c.books.Get(s).queue, c.config.maxPayload);
  }

  lemma SpacesShut(c: Conn, at: int, env: FlushEnv)
    requires c.state.Active?
    ensures OpenOrShut(SpacesFlushed(c, at, env), at)
  {
    hide ShutAt, SpaceFlushed;
    SpaceFlushedShuts(c, InitialSpace, at, env.after, env.initial);
    var c1 := SpaceFlushed(c, InitialSpace, at, env.after, env.initial);
    if c1.state.Active? {
      SpaceFlushedShuts(c1, HandshakeSpace, at, env.after, env.handshake);
      var c2 := SpaceFlushed(c1, HandshakeSpace, at, env.after, env.handshake);
      if c2.state.Active? {
        SpaceFlushedShuts(c2, AppSpace, at, env.after, env.application);
      }
    }
  }

  lemma {:induction false} ItemsShut(c: Conn, items: seq<CryptoItem>, clock: int)
    requires c.state.Active?
    ensures OpenOrShut(ItemsPumped(c, items, clock), clock)
    decreases items
  {
    hide ShutAt, ToClosing, Enqueue;
    ClosingShuts(c, clock);
    if items != [] {
      ItemsShut(c, items[1..], clock);
      if items[0].frames.Some? {
        ItemsShut(c.(books := Enqueue(c.books, items[0].space, items[0].frames.value)), items[1..], clock);
      }
    }
  }

  lemma PumpedShuts(c: Conn, pump: Pump, clock: int)
    requires c.state.Active?
    ensures OpenOrShut(Pumped(c, pump, clock), clock)
  {
    hide ShutAt, ToClosing, ItemsPumped;
    ClosingShuts(c, clock);
    if pump.Drained? {
      ItemsShut(c.(dirty := true), pump.items, clock);
    }
  }

  /** A refresh of a connection that has just closed adds at most the challenge that is due. */
  lemma ShutRefreshed(c: Conn, tls: Option<Tls>, at: int)
    requires ShutAt(c, at)
    ensures var d := Refreshed(c, tls);
            && ShutAt(d.(books := WithQueue(d.books, AppSpace, [])), at)
            && d.books.app.queue == if ChallengeIsDue(c, d.keys, tls) then [PathChallenge(c.path.pending.value)] else []
  {
    hide ChallengeIsDue, Refreshed;
    RefreshedExactly(c, tls);
    var d := Refreshed(c, tls);
    forall s
      ensures IsEmpty(WithQueue(d.books, AppSpace, []).Get(s))
    {
      assert IsEmpty(c.books.Get(s));
    }
    assert [] + d.books.app.queue == d.books.app.queue;
  }

  /** What pumping TLS leaves alone, whether it closes the connection or not. */
  lemma {:induction false} ItemsKeepPath(c: Conn, items: seq<CryptoItem>, clock: int)
    ensures var d := ItemsPumped(c, items, clock); d.path == c.path && d.keys == c.keys && d.dirty == c.dirty
    decreases items
  {
    hide Enqueue, AllCleared;
    if items != [] {
      ItemsKeepPath(c, items[1..], clock);
      if items[0].frames.Some? {
        ItemsKeepPath(c.(books := Enqueue(c.books, items[0].space, items[0].frames.value)), items[1..], clock);
      }
    }
  }

  lemma PumpedKeepsPath(c: Conn, pump: Pump, clock: int)
    ensures var d := Pumped(c, pump, clock);
            d.path == c.path && d.keys == c.keys && d.dirty == (c.dirty || pump.Drained?)
  {
    hide ItemsPumped, AllCleared;
    if pump.Drained? {
      ItemsKeepPath(c.(dirty := true), pump.items, clock);
    }
  }

  /** TLS fails to advance, or some of its data does not fit. */
  ghost predicate PumpFails(c: Conn, env: FlushEnv) {
    env.pump.AdvanceFailed? || (env.pump.Drained? && Overflows(Refreshed(c, env.before), env.pump.items))
  }

  /** The challenge for the peer's address was not due before TLS was pumped, and is afterwards. */
  ghost predicate ChallengeIsLate(c: Conn, env: FlushEnv) {
    var keys := Refreshed(c, env.before).keys;
    && c.path.pending.Some? && !c.path.queued && !ChallengeIsDue(c, keys, env.before)
    && env.after.Some? && env.after.value.confirmed && env.after.value.applicationKeys && env.after.value.scheduleReady
    && (keys.oneRttSend || env.pump.Drained?)
  }

  /** How a flush that closes leaves the connection. */
  lemma FlushedShuts(c: Conn, at: int, env: FlushEnv)
    requires c.state.Active?
    ensures var d := Flushed(c, at, env);
            d.state.Active? ||
              (&& ShutAt(d.(books := WithQueue(d.books, AppSpace, [])), if PumpFails(c, env) then env.clock else at)
               && d.books.app.queue == if PumpFails(c, env) && ChallengeIsLate(c, env)
                                       then [PathChallenge(c.path.pending.value)] else [])
  {
    hide ShutAt, Pumped, SpacesFlushed, Refreshed, Overflows, ChallengeIsDue;
    var c1 := Refreshed(c, env.before);
    RefreshStaysInside(c, env.before);
    var c2 := Pumped(c1, env.pump, env.clock);
    WhenPumpingCloses(c1, env.pump, env.clock);
    PumpedShuts(c1, env.pump, env.clock);
    var c3 := Refreshed(c2, env.after);
    RefreshStaysInside(c2, env.after);
    if c2.state.Active? {
      SpacesShut(c3, at, env);
      var d := SpacesFlushed(c3, at, env);
      if !d.state.Active? {
        ShutHasNoQueue(d, at);
      }
    } else {
      ShutRefreshed(c2, env.after, env.clock);
      LateExactly(c, env);
      SpacesStay(c3, at, env);
    }
  }

  lemma SpacesStay(c: Conn, at: int, env: FlushEnv)
    requires !c.state.Active?
    ensures SpacesFlushed(c, at, env) == c
  {
  }

  lemma ShutHasNoQueue(d: Conn, at: int)
    requires ShutAt(d, at)
    ensures d.books.app.queue == [] && ShutAt(d.(books := WithQueue(d.books, AppSpace, [])), at)
  {
    assert IsEmpty(d.books.Get(AppSpace));
    assert WithQueue(d.books, AppSpace, []) == d.books;
  }

  lemma LateExactly(c: Conn, env: FlushEnv)
    ensures var c1 := Refreshed(c, env.before);
            var c2 := Pumped(c1, env.pump, env.clock);
            && c2.path.pending == c.path.pending
            && (ChallengeIsDue(c2, Refreshed(c2, env.after).keys, env.after) <==> ChallengeIsLate(c, env))
  {
    hide Refreshed, Pumped;
    RefreshedExactly(c, env.before);
    var c1 := Refreshed(c, env.before);
    PumpedKeepsPath(c1, env.pump, env.clock);
    RefreshedExactly(Pumped(c1, env.pump, env.clock), env.after);
  }

  lemma AckShuts(c: Conn, s: Space, at: int, tls: Option<Tls>, assembled: Option<u64>)
    requires c.state.Active?
    ensures OpenOrShut(AckSent(c, s, at, tls, assembled), at)
  {
    hide ShutAt, ToClosing, Refreshed, AckFor, Cleared, Sent, WithQueue, PV.Allows, PV.Emitted;
    RefreshStaysInside(c, tls);
    ClosingShuts(Refreshed(c, tls), at);
  }

  lemma LifecycleShuts(c: Conn, kind: TimerKind, now: int)
    requires c.state.Active?
    ensures OpenOrShut(LifecycleFired(c, kind, now), now)
  {
    hide ShutAt, ToClosing;
    ClosingShuts(LifecycleAsked(c, now), now);
  }

  /** Only a flush in which TLS fails reads the clock for itself. */
  ghost function ClosingTime(c: Conn, call: Call): int {
    match call
    case CallFlush(at, env) => if PumpFails(c, env) then env.clock else at
    case CallAcknowledge(_, at, _, _) => at
    case CallDatagram(_, _, at, _) => at
    case CallLifecycleTimer(_, at) => at
    case _ => 0
  }

  /** The call is a flush in which TLS fails while the challenge becomes due. */
  ghost predicate LeavesChallenge(c: Conn, call: Call) {
    call.CallFlush? && PumpFails(c, call.flush) && ChallengeIsLate(c, call.flush)
  }

  /**
   * What a call that closes an active connection leaves behind: the time it closed, and empty packet number spaces but
   * for one case, in which the application queue still gets the challenge for the peer's address.
   */
  lemma WhatClosingLeaves(c: Conn, call: Call)
    requires c.flow.Valid() && c.state.Active?
    ensures var d := Step(c, call);
            d.state.Active? ||
              (&& ShutAt(d.(books := WithQueue(d.books, AppSpace, [])), ClosingTime(c, call))
               && d.books.app.queue == if LeavesChallenge(c, call)
                                       then [PathChallenge(c.path.pending.value)] else [])
  {
    hide ShutAt, Flushed, AckSent, DatagramTaken, TimerFired, LifecycleFired, NextTimerAsked, FC.Flow.Valid, Cleared,
      WithQueue, PumpFails, FC.Schedule, FC.Write, FC.RaiseData;
    var d := Step(c, call);
    match call {
      case CallFlush(at, env) => FlushedShuts(c, at, env);
      case CallAcknowledge(s, at, tls, assembled) => AckShuts(c, s, at, tls, assembled);
      case CallDatagram(inbound, from, at, tls) => DatagramShuts(c, inbound, from, at, tls);
      case CallLifecycleTimer(kind, at) => LifecycleShuts(c, kind, at);
      case CallRecoveryTimer(s, at, tls) => TimerDoesNotEnd(c, s, at, tls);
      case CallNextRecoveryTimer(tls) => TimerDoesNotEnd(c, InitialSpace, 0, tls);
      case _ =>
    }
    if !d.state.Active? && !call.CallFlush? {
      ShutHasNoQueue(d, ClosingTime(c, call));
    }
  }

  // ---------------------------------------------------------------- over runs

  /** Nothing in any space, but perhaps a challenge in the application queue. */
  ghost predicate Emptied(b: Books) {
    && IsEmpty(b.initial) && IsEmpty(b.handshake) && IsEmpty(b.app.(queue := []))
    && (b.app.queue == [] || exists token :: b.app.queue == [PathChallenge(token)])
  }

  ghost predicate Settled(c: Conn) {
    c.state.Active? || (Emptied(c.books) && (c.state.Closed? || c.closedAt.Some?))
  }

  lemma ActiveIsSettled(c: Conn)
    requires c.state.Active?
    ensures Settled(c)
  {
  }

  lemma ClearedStaysEmptied(b: Books, s: Space)
    requires Emptied(b)
    ensures Emptied(Cleared(b, s))
  {
    hide Keep, KeepRanges;
  }

  lemma ShutSettles(d: Conn, at: int)
    requires ShutAt(d.(books := WithQueue(d.books, AppSpace, [])), at)
    requires d.books.app.queue == [] || exists token :: d.books.app.queue == [PathChallenge(token)]
    ensures Settled(d)
  {
    var b := WithQueue(d.books, AppSpace, []);
    assert IsEmpty(b.Get(InitialSpace)) && IsEmpty(b.Get(HandshakeSpace)) && IsEmpty(b.Get(AppSpace));
  }

  lemma InactiveStaysSettled(c: Conn, call: Call)
    requires c.flow.Valid() && Settled(c) && !c.state.Active?
    ensures Settled(Step(c, call))
  {
    hide Emptied, Cleared, FC.Flow.Valid, AllCleared, FC.Schedule, FC.Write, FC.RaiseData, Rtt.Update;
    match call
    case CallDiscard(s) => ClearedStaysEmptied(c.books, s);
    case CallLifecycleTimer(kind, at) => AllClearedSettles(c.books);
    case _ =>
  }

  lemma AllClearedSettles(b: Books)
    ensures Emptied(AllCleared(b))
  {
    hide AllCleared;
    AllClearedIsEmpty(b);
    var c := AllCleared(b);
    assert IsEmpty(c.Get(InitialSpace)) && IsEmpty(c.Get(HandshakeSpace)) && IsEmpty(c.Get(AppSpace));
  }

  /**
   * Over every run: once the connection is not active, nothing is queued, remembered or awaited in any packet number
   * space, except that the application queue may hold one challenge; and until it has ended it knows when it closed.
   */
  lemma {:induction false} ClosedConnectionsAreEmpty(config: Config, peer: Endpoint, calls: seq<Call>)
    ensures Inv(NewConn(config, peer))
    ensures Settled(Run(NewConn(config, peer), calls))
    decreases |calls|
  {
    hide Inv, Step, Settled, LeavesChallenge, ShutAt;
    NewConnIsOk(config, peer);
    var start := NewConn(config, peer);
    if calls == [] {
      ActiveIsSettled(start);
    } else {
      var front, call := calls[..|calls| - 1], calls[|calls| - 1];
      ClosedConnectionsAreEmpty(config, peer, front);
      var c := Run(start, front);
      StepKeeps(c, call);
      if c.state.Active? {
        StepSettles(c, call);
      } else {
        InactiveStaysSettled(c, call);
      }
    }
  }

  lemma StepSettles(c: Conn, call: Call)
    requires c.flow.Valid() && c.state.Active?
    ensures Settled(Step(c, call))
  {
    hide Step, ShutAt, FC.Flow.Valid, Emptied, Refreshed, Overflows, ChallengeIsDue;
    WhatClosingLeaves(c, call);
    var d := Step(c, call);
    if !d.state.Active? {
      assert LeavesChallenge(c, call) ==> d.books.app.queue == [PathChallenge(c.path.pending.value)];
      ShutSettles(d, ClosingTime(c, call));
    }
  }

  // ---------------------------------------------------------------- the challenge that is left

  ghost predicate Expects(c: Conn, token: PathToken) {
    c.state.Active? && c.path.pending == Some(token) && !c.path.queued && c.keys.oneRttSend
  }

  /** A PING from a new address, before TLS has anything to say. */
  ghost function PingFrom(from: Endpoint, token: PathToken): Call {
    CallDatagram(
      ShortDatagram(1200, Some(Contents(0, [Ping])), false, PacketEnv(Some(token), Some([]), {}, None, None, true)),
      from, 0, None)
  }

  lemma PingIsTaken(c: Conn, at: int, env: PacketEnv, token: PathToken)
    requires Expects(c, token)
    requires env.retired == Some([]) && env.refused == {} && env.before == None && env.after == None
    ensures Expects(FramesTaken(c, Parsed(AppSpace, 0, [Ping]), at, env), token)
  {
    hide Refreshed, AckTaken, FC.Halt, PV.Step;
    var p := Parsed(AppSpace, 0, [Ping]);
    var d := Recorded(c, p, [], at);
    PingRecords(RetirementsQueued(c, []), p.frames, at);
    assert d == c.(books := d.books);
    var e := CryptoTaken(ControlTaken(d, p.frames, {}), p.frames, None, {});
    PingStopsNothing(d, p.frames[..FirstReset(p.frames, {}, 0)]);
    assert e.path == c.path && e.keys == c.keys && e.state == c.state;
    RefreshedExactly(e, None);
  }

  lemma PingRecords(c: Conn, frames: seq<WireFrame>, at: int)
    requires frames == [Ping]
    ensures PathFrames(c, frames) == c && AckFrames(c, AppSpace, frames, at) == c && CreditFrames(c, frames) == c
  {
    assert frames[..0] == [];
  }

  lemma PingStopsNothing(c: Conn, frames: seq<Frame>)
    requires frames <= [Ping]
    ensures StopFrames(c, frames) == c
  {
    if frames != [] {
      assert frames == [Ping] && [Ping][..0] == [];
    }
  }

  lemma PingMoves(c: Conn, from: Endpoint, token: PathToken)
    requires c.state.Active? && c.config.server && c.path.server && !c.config.migrationDisabled && from != c.peer
    requires c.keys.oneRttSend && !c.keys.appGone && 0 !in c.books.app.received
    ensures Expects(DatagramTaken(c, PingFrom(from, token).inbound, from, 0, None), token)
  {
    hide Refreshed, FramesTaken, WithReceived, ValidationStarted, PV.Step, Expects, PV.Adopted;
    RefreshedExactly(c, None);
    var c1 := Refreshed(c, None);
    var c2 := Noticed(c1, AppSpace, 0);
    var env := PingFrom(from, token).inbound.env;
    NewAddressNewChallenge(c2.(peer := from), 0, token, None, Ping);
    AdoptingWaits(c2.path, token);
    StartStaysInside(c2.(peer := from), 0, Some(token), None);
    StartKeepsKeys(c2.(peer := from), 0, token);
    var c3 := ValidationStarted(c2.(peer := from), 0, Some(token), None);
    ArrivalKeepsChallenge(c3, 1200, token);
    PingIsTaken(CountReceived(c3, 1200, 0), 0, env, token);
  }

  lemma StartKeepsKeys(c: Conn, at: int, token: PathToken)
    ensures ValidationStarted(c, at, Some(token), None).keys == c.keys
  {
    hide PV.Step, WithQueue, WithoutChallenge;
  }

  lemma ArrivalKeepsChallenge(c: Conn, size: u64, token: PathToken)
    requires Expects(c, token)
    ensures Expects(CountReceived(c, size, 0), token)
  {
  }

  lemma ChallengeStays(c: Conn, env: FlushEnv, token: PathToken)
    requires Expects(c, token) && env.before == None && env.pump == AdvanceFailed
    requires env.after == Some(Tls(true, true, true, true))
    ensures var d := Flushed(c, 0, env); d.state == Closing && d.books.app.queue == [PathChallenge(token)]
  {
    hide Refreshed, SpacesFlushed, ShutAt;
    RefreshedExactly(c, None);
    FlushedShuts(c, 0, env);
    RefreshStaysInside(c, None);
    var c1 := Refreshed(c, None);
    WhenPumpingCloses(c1, AdvanceFailed, env.clock);
    var c2 := Pumped(c1, AdvanceFailed, env.clock);
    RefreshStaysInside(c2, env.after);
    SpacesStay(Refreshed(c2, env.after), 0, env);
  }

  /**
   * The case exists: a server hears from a new address before application data is allowed, and TLS then fails in the
   * flush that would have sent the challenge. The connection is closing and the challenge is in its queue.
   */
  lemma ChallengeOutlivesTheConnection(config: Config, peer: Endpoint, from: Endpoint, token: PathToken, idle: SendEnv)
    requires config.server && !config.migrationDisabled && from != peer
    requires config.keys == Keys(false, false, false, true)
    ensures Inv(NewConn(config, peer))
    ensures var ready := Some(Tls(true, true, true, true));
            var flush := CallFlush(0, FlushEnv(None, AdvanceFailed, 0, ready, idle, idle, idle));
            var d := Run(NewConn(config, peer), [PingFrom(from, token)] + [flush]);
            d.state == Closing && d.books.app.queue == [PathChallenge(token)]
  {
    hide Inv, Run, DatagramTaken, Flushed, Expects;
    NewConnIsOk(config, peer);
    var start := NewConn(config, peer);
    var flush :=
      CallFlush(0, FlushEnv(None, AdvanceFailed, 0, Some(Tls(true, true, true, true)), idle, idle, idle));
    RunEmpty(start);
    RunGrows(start, [], PingFrom(from, token));
    assert [] + [PingFrom(from, token)] == [PingFrom(from, token)];
    PingMoves(start, from, token);
    RunGrows(start, [PingFrom(from, token)], flush);
    ChallengeStays(DatagramTaken(start, PingFrom(from, token).inbound, from, 0, None), flush.flush, token);
  }
}
