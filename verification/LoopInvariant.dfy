/**
 * What every call keeps true of a connection: its books, actions, path and sending streams are at each moment what its
 * history says they must be.
 */
module LoopInvariant {
  import opened Common
  import opened Frames
  import opened LoopHistory
  import opened LoopSpec
  import opened LoopState
  import opened Recovery
  import opened SentRecords
  import FC = FlowControl
  import PayloadBudget
  import PV = PathValidation
  import Rtt

  // ---------------------------------------------------------------- the invariant

  /** Drivers have taken the actions in order, and the rest are pending until the connection is closed for good. */
  ghost predicate ActionsOk(state: State, actions: seq<Action>, past: seq<Moment>) {
    && Orderly(state, Emitted(past))
    && (if state.Closed? then HandedOut(past) <= Emitted(past) && actions == []
        else Emitted(past) == HandedOut(past) + actions)
  }

  /** The path is where its events have led, and the meters show what was received and sent since the last move. */
  ghost predicate PathOk(config: Config, path: PV.Path, past: seq<Moment>) {
    PV.Run(PV.NewPath(config.server, config.addressValidated), PV.Meter(0, 0), PathEvents(past))
      == (path, PV.Meter(ReceivedSince(past), SentSince(past)))
  }

  function StartFlow(config: Config): FC.Flow {
    FC.NewFlow(config.streamMaxData, config.bidiLimit, config.uniLimit, config.connectionMax)
  }

  /** The sending streams are where their events have led. */
  ghost predicate Flows(config: Config, events: seq<FC.Event>, flow: FC.Flow) {
    var start := StartFlow(config);
    start.Valid() && FC.Faithful(start, []) && FC.Run(start, [], events).0 == flow
  }

  ghost predicate Inv(c: Conn) {
    && InOrder(c.books, Reports(c.past), Emitted(c.past))
    && ActionsOk(c.state, c.actions, c.past)
    && (c.state.Active? || NoRecords(c.books))
    && PathOk(c.config, c.path, c.past)
    && Flows(c.config, StreamEvents(c.past), c.flow)
  }

  /** History only grows and the state only moves forward. */
  ghost predicate Led(c: Conn, d: Conn) {
    && d.config == c.config && c.past <= d.past
    && (d.state == c.state || Rank(c.state) < Rank(d.state))
  }

  ghost predicate Kept(c: Conn, d: Conn) {
    Inv(d) && Led(c, d)
  }

  // ---------------------------------------------------------------- sending streams

  lemma StartIsOk(config: Config)
    ensures StartFlow(config).Valid() && FC.Faithful(StartFlow(config), [])
    ensures Flows(config, [], StartFlow(config))
  {
    FC.EveryRunStaysWithinCredit(config.streamMaxData, config.bidiLimit, config.uniLimit, config.connectionMax, [], 0);
  }

  lemma FlowsNext(config: Config, events: seq<FC.Event>, flow: FC.Flow, e: FC.Event)
    requires Flows(config, events, flow)
    ensures flow.Valid() && Flows(config, events + [e], FC.Step(flow, e).0)
  {
    hide FC.Run, FC.Flow.Valid, FC.Faithful, FC.Step;
    FC.RunGrows(StartFlow(config), [], events, e);
  }

  lemma {:induction false} FlowsMany(
    config: Config, events: seq<FC.Event>, flow: FC.Flow, ranges: seq<StreamRange>, acked: bool)
    requires Flows(config, events, flow)
    ensures Flows(config, events + RangeEvents(ranges, acked), Resolved(flow, ranges, acked))
    decreases |ranges|
  {
    hide Flows, FC.Confirm, FC.Miss, FC.Flow.Valid, RangeEvents;
    if ranges == [] {
      assert RangeEvents(ranges, acked) == [] && events + [] == events;
    } else {
      var n := |ranges| - 1;
      var front, last := ranges[..n], ranges[n];
      var e := if acked then FC.Confirmed(last.streamId, last.range) else FC.Missed(last.streamId, last.range);
      FlowsMany(config, events, flow, front, acked);
      FlowsNext(config, events + RangeEvents(front, acked), Resolved(flow, front, acked), e);
      assert RangeEvents(ranges, acked) == RangeEvents(front, acked) + [e];
      assert events + RangeEvents(front, acked) + [e] == events + RangeEvents(ranges, acked);
    }
  }

  // ---------------------------------------------------------------- single moments

  lemma NewConnIsOk(config: Config, peer: Endpoint)
    ensures Inv(NewConn(config, peer))
  {
    hide InOrder, Flows;
    NewBooksAreInOrder();
    StartIsOk(config);
  }

  lemma InvMeans(c: Conn)
    requires Inv(c)
    ensures c.flow.Valid() && Agree(c.books) && ReceivedFits(c.books)
    ensures c.path.server == c.config.server
  {
    hide FC.Flow.Valid, FC.Faithful;
    FlowsNext(c.config, StreamEvents(c.past), c.flow, FC.DataGrant(0));
    PV.EveryRunIsMetered(c.config.server, c.config.addressValidated, PathEvents(c.past));
  }

  /** An action that is no datagram. */
  lemma ActIsNoted(past: seq<Moment>, a: Action)
    requires !a.Datagram?
    ensures var next := past + [Did(a)];
            && Emitted(next) == Emitted(past) + [a] && HandedOut(next) == HandedOut(past)
            && Reports(next) == Reports(past)
            && PathEvents(next) == PathEvents(past) && StreamEvents(next) == StreamEvents(past)
            && ReceivedSince(next) == ReceivedSince(past) && SentSince(next) == SentSince(past)
  {
    hide Emitted, HandedOut, Reports, PathEvents, StreamEvents, ReceivedSince, SentSince;
    EmittedNext(past, Did(a));
    ReportsNext(past, Did(a));
    PathNext(past, Did(a));
    StreamNext(past, Did(a));
    assert HandedOut(past) + [] == HandedOut(past) && Reports(past) + [] == Reports(past);
    assert PathEvents(past) + [] == PathEvents(past);
  }

  lemma ActKeeps(c: Conn, a: Action)
    requires Inv(c) && c.state.Active? && a.PacketEvent?
    ensures Kept(c, Act(c, a))
  {
    hide InOrder, Flows, Emitted, HandedOut, Reports, PathEvents, StreamEvents, ReceivedSince, SentSince;
    ActIsNoted(c.past, a);
    EmittingKeepsOrder(c.books, Reports(c.past), Emitted(c.past), a);
    assert HandedOut(c.past) + (c.actions + [a]) == HandedOut(c.past) + c.actions + [a];
  }

  /** New books that are in order for the same history. */
  lemma BooksKeep(c: Conn, b: Books)
    requires Inv(c) && InOrder(b, Reports(c.past), Emitted(c.past)) && (c.state.Active? || NoRecords(b))
    ensures Kept(c, c.(books := b))
  {
    hide InOrder, Flows, ActionsOk, PathOk;
  }

  lemma QueueKeeps(c: Conn, s: Space, queue: seq<Frame>)
    requires Inv(c)
    ensures Kept(c, c.(books := WithQueue(c.books, s, queue)))
  {
    hide InOrder, Flows, ActionsOk, PathOk;
    QueueKeepsOrder(c.books, s, queue, Reports(c.past), Emitted(c.past));
    BooksKeep(c, WithQueue(c.books, s, queue));
  }

  lemma ReceivedKeeps(c: Conn, s: Space, n: u64)
    requires Inv(c)
    requires c.state.Active?
    ensures Kept(c, Noticed(c, s, n))
  {
    hide InOrder, Flows, ActionsOk, PathOk, Emitted, HandedOut, Reports, PathEvents, StreamEvents, ReceivedSince,
      SentSince, WithReceived;
    SeeingIsNoted(c.past, s, n);
    ReceivingKeepsOrder(c.books, s, n, Reports(c.past), Emitted(c.past));
    var d := c.(books := WithReceived(c.books, s, n));
    BooksKeep(c, d.books);
    PathFramed(c.config, c.path, c.past, Noticed(c, s, n).past);
    ActionsFramed(c.state, c.actions, c.past, Noticed(c, s, n).past);
  }

  lemma PathFramed(config: Config, path: PV.Path, past: seq<Moment>, next: seq<Moment>)
    requires PathOk(config, path, past) && PathEvents(next) == PathEvents(past)
    requires ReceivedSince(next) == ReceivedSince(past) && SentSince(next) == SentSince(past)
    ensures PathOk(config, path, next)
  {
  }

  lemma SeeingIsNoted(past: seq<Moment>, s: Space, n: nat)
    ensures var next := past + [Saw(s, n)];
            && Emitted(next) == Emitted(past) && HandedOut(next) == HandedOut(past) && Reports(next) == Reports(past)
            && PathEvents(next) == PathEvents(past) && StreamEvents(next) == StreamEvents(past)
            && ReceivedSince(next) == ReceivedSince(past) && SentSince(next) == SentSince(past)
  {
    hide Emitted, HandedOut, Reports, PathEvents, StreamEvents, ReceivedSince, SentSince;
    EmittedNext(past, Saw(s, n));
    ReportsNext(past, Saw(s, n));
    PathNext(past, Saw(s, n));
    StreamNext(past, Saw(s, n));
    assert Emitted(past) + [] == Emitted(past) && HandedOut(past) + [] == HandedOut(past);
    assert Reports(past) + [] == Reports(past) && PathEvents(past) + [] == PathEvents(past);
  }

  lemma ClearedKeeps(c: Conn, s: Space)
    requires Inv(c)
    ensures Kept(c, ClearedSpace(c, s))
  {
    hide InOrder, Flows, ActionsOk, PathOk, Cleared;
    ClearingKeepsOrder(c.books, s, Reports(c.past), Emitted(c.past));
    if !c.state.Active? {
      ClearingKeepsNoRecords(c.books, s);
    }
    BooksKeep(c, Cleared(c.books, s));
  }

  lemma AllClearedKeeps(c: Conn)
    requires Inv(c)
    ensures Kept(c, c.(books := AllCleared(c.books))) && NoRecords(AllCleared(c.books))
  {
    hide Inv, Cleared, NoRecords;
    var c1 := ClearedSpace(c, InitialSpace);
    var c2 := ClearedSpace(c1, HandshakeSpace);
    ClearedKeeps(c, InitialSpace);
    ClearedKeeps(c1, HandshakeSpace);
    ClearedKeeps(c2, AppSpace);
    NothingIsKept(c.books);
  }

  /** The close action, from an active connection whose books are empty. */
  lemma CloseKeeps(c: Conn, state: State, at: int)
    requires Inv(c) && c.state.Active? && NoRecords(c.books) && (state.Closing? || state.Draining?)
    ensures Kept(c, Act(c.(state := state, closedAt := Some(at)), Close))
  {
    hide InOrder, Flows, Emitted, HandedOut, Reports, PathEvents, StreamEvents, ReceivedSince, SentSince;
    ActIsNoted(c.past, Close);
    EmittingKeepsOrder(c.books, Reports(c.past), Emitted(c.past), Close);
    assert HandedOut(c.past) + (c.actions + [Close]) == HandedOut(c.past) + c.actions + [Close];
  }

  lemma ToClosingKeeps(c: Conn, at: int)
    requires Inv(c)
    ensures Kept(c, ToClosing(c, at)) && !ToClosing(c, at).state.Active?
  {
    hide Inv, AllCleared, NoRecords;
    if c.state.Active? {
      AllClearedKeeps(c);
      CloseKeeps(c.(books := AllCleared(c.books)), Closing, at);
    }
  }

  lemma ToDrainingKeeps(c: Conn, at: int)
    requires Inv(c) && !c.state.Closing?
    ensures Kept(c, ToDraining(c, at)) && !ToDraining(c, at).state.Active?
  {
    hide Inv, AllCleared, NoRecords;
    if c.state.Active? {
      AllClearedKeeps(c);
      CloseKeeps(c.(books := AllCleared(c.books)), Draining, at);
    }
  }

  lemma ToClosedKeeps(c: Conn)
    requires Inv(c) && !c.state.Active?
    ensures Kept(c, ToClosed(c))
  {
    hide InOrder, AllCleared, Flows, PathOk;
    AllClearedKeeps(c);
  }

  // ---------------------------------------------------------------- path

  lemma PathIsNoted(past: seq<Moment>, e: PV.Event)
    ensures var next := past + [OnPath(e)];
            && Emitted(next) == Emitted(past) && HandedOut(next) == HandedOut(past) && Reports(next) == Reports(past)
            && PathEvents(next) == PathEvents(past) + [e] && StreamEvents(next) == StreamEvents(past)
            && ReceivedSince(next) ==
                 (if Moves(OnPath(e)) then 0 else ReceivedSince(past) + if e.Arrival? then e.size else 0)
            && SentSince(next) == (if Moves(OnPath(e)) then 0 else SentSince(past))
  {
    hide Emitted, HandedOut, Reports, PathEvents, StreamEvents, ReceivedSince, SentSince;
    EmittedNext(past, OnPath(e));
    ReportsNext(past, OnPath(e));
    PathNext(past, OnPath(e));
    StreamNext(past, OnPath(e));
    assert Emitted(past) + [] == Emitted(past) && HandedOut(past) + [] == HandedOut(past);
    assert Reports(past) + [] == Reports(past);
  }

  lemma PathStepKeeps(c: Conn, e: PV.Event)
    requires Inv(c) && !e.Departure? && (Moves(OnPath(e)) ==> c.config.server)
    ensures Kept(c, PathStep(c, e))
  {
    hide InOrder, Flows, Emitted, HandedOut, Reports, PathEvents, StreamEvents, ReceivedSince, SentSince, PV.Step,
      ActionsOk, NoRecords, PV.Run;
    PathIsNoted(c.past, e);
    InvMeans(c);
    PV.RunGrows(PV.NewPath(c.config.server, c.config.addressValidated), PV.Meter(0, 0), PathEvents(c.past), e);
    ActionsFramed(c.state, c.actions, c.past, c.past + [OnPath(e)]);
  }

  lemma ActionsFramed(state: State, actions: seq<Action>, past: seq<Moment>, next: seq<Moment>)
    requires ActionsOk(state, actions, past) && Emitted(next) == Emitted(past) && HandedOut(next) == HandedOut(past)
    ensures ActionsOk(state, actions, next)
  {
    hide Emitted, HandedOut;
  }

  lemma ChallengeQueuedKeeps(c: Conn, tls: Option<Tls>)
    requires Inv(c)
    ensures Kept(c, ChallengeQueued(c, tls)) && ChallengeQueued(c, tls).state == c.state
  {
    hide Inv, PathStep, Enqueue;
    if c.path.pending.Some? && !c.path.queued && SendAllowed(c, tls) {
      var frame := PathChallenge(c.path.pending.value);
      EnqueueKeeps(c, AppSpace, [frame]);
      PathStepKeeps(c.(books := Enqueue(c.books, AppSpace, [frame])), PV.Queueing);
      PathStepState(c.(books := Enqueue(c.books, AppSpace, [frame])), PV.Queueing);
    }
  }

  lemma PathStepState(c: Conn, e: PV.Event)
    ensures PathStep(c, e).state == c.state && PathStep(c, e).config == c.config && PathStep(c, e).books == c.books
    ensures PathStep(c, e).keys == c.keys && PathStep(c, e).flow == c.flow
  {
  }

  lemma EnqueueKeeps(c: Conn, s: Space, frames: seq<Frame>)
    requires Inv(c)
    ensures Kept(c, c.(books := Enqueue(c.books, s, frames)))
  {
    hide Inv, WithQueue;
    QueueKeeps(c, s, c.books.Get(s).queue + frames);
  }

  lemma ObservedKeeps(c: Conn, tls: Option<Tls>)
    requires Inv(c)
    ensures Kept(c, Observed(c, tls)) && Observed(c, tls).state == c.state
  {
    hide Inv, Cleared;
    var keys := if tls.Some? then c.keys.Observe(tls.value) else c.keys;
    var confirmed := if tls.Some? then tls.value.confirmed else c.confirmed;
    var c0 := c.(keys := keys, confirmed := confirmed, dirty := false);
    OtherFieldsKeep(c, c0);
    var c1 := if keys.Discarded(InitialSpace) then ClearedSpace(c0, InitialSpace) else c0;
    ClearedKeeps(c0, InitialSpace);
    var c2 := if keys.Discarded(HandshakeSpace) then ClearedSpace(c1, HandshakeSpace) else c1;
    ClearedKeeps(c1, HandshakeSpace);
    ClearedKeeps(c2, AppSpace);
  }

  /** Nothing is said about keys, peer, estimate and clocks. */
  lemma OtherFieldsKeep(c: Conn, d: Conn)
    requires Inv(c)
    requires d == c.(keys := d.keys, confirmed := d.confirmed, dirty := d.dirty, peer := d.peer, rtt := d.rtt,
                     lastActivity := d.lastActivity, closedAt := d.closedAt)
    ensures Kept(c, d)
  {
    hide InOrder, Flows, ActionsOk, PathOk, NoRecords;
  }

  lemma RefreshedKeeps(c: Conn, tls: Option<Tls>)
    requires Inv(c)
    ensures Kept(c, Refreshed(c, tls)) && Refreshed(c, tls).state == c.state
  {
    hide Inv, Observed, PathStep, ChallengeQueued;
    var d := if c.dirty then Observed(c, tls) else c;
    if c.dirty {
      ObservedKeeps(c, tls);
    }
    var e := PV.Refresh(tls.Some? && tls.value.confirmed);
    PathStepKeeps(d, e);
    PathStepState(d, e);
    ChallengeQueuedKeeps(PathStep(d, e), tls);
  }

  lemma ValidationStartedKeeps(c: Conn, at: int, token: Option<PathToken>, tls: Option<Tls>)
    requires Inv(c) && c.config.server && c.state.Active?
    ensures var d := ValidationStarted(c, at, token, tls);
            Kept(c, d) && (d.state.Active? <==> token.Some?) && (d.state.Active? || d.state.Closing?)
  {
    hide Inv, PathStep, ChallengeQueued, AllCleared, WithoutChallenge, WithQueue;
    var d := ChallengeRemoved(c);
    if c.path.pending.Some? && c.path.queued {
      QueueKeeps(c, AppSpace, WithoutChallenge(c.books.app.queue, c.path.pending.value));
    }
    var e := if token.None? then PV.Unchallenged else PV.NewPeer(token.value);
    PathStepKeeps(d, e);
    PathStepState(d, e);
    if token.None? {
      ToClosingKeeps(PathStep(d, e), at);
    } else {
      ChallengeQueuedKeeps(PathStep(d, e), tls);
    }
  }

  lemma PeerMetKeeps(c: Conn, from: Endpoint, at: int, token: Option<PathToken>, tls: Option<Tls>)
    requires Inv(c) && c.state.Active?
    ensures var d := PeerMet(c, from, at, token, tls);
            && Kept(c, d) && (d.state.Active? || d.state.Closing?)
            && (d.state.Active? <==> Acceptable(c.peer, from, c.config, token))
  {
    hide Inv, ValidationStarted, AllCleared;
    OtherFieldsKeep(c, c.(peer := from));
    ToClosingKeeps(c, at);
    if from != c.peer && !c.config.migrationDisabled && c.config.server {
      ValidationStartedKeeps(c.(peer := from), at, token, tls);
    }
  }

  // ---------------------------------------------------------------- acknowledgements and credit

  /** A tracked packet's ranges in the books are those it was sent with. */
  lemma TrackedRanges(c: Conn, s: Space, i: nat)
    requires Inv(c) && i < |c.books.Get(s).sent|
    ensures FindRanges(c.books.ranges, s, c.books.Get(s).sent[i].number)
            == SentRanges(c.past, s, c.books.Get(s).sent[i].number)
  {
    hide FindRanges, StreamRanges, FramesIn, Emitted, ActionsOk, PathOk, Flows, Agree, ReportedOnce, RangesNumbered,
      Rising;
    assert TrueRecord(c.books, Emitted(c.past), s, c.books.Get(s).sent[i].number);
  }

  lemma OutstandingRanges(c: Conn, s: Space, numbers: seq<nat>)
    requires Inv(c) && forall k | 0 <= k < |numbers| :: IsOutstanding(c.books.Get(s).sent, numbers[k])
    ensures forall k | 0 <= k < |numbers| ::
            FindRanges(c.books.ranges, s, numbers[k]) == SentRanges(c.past, s, numbers[k])
  {
    hide Inv, FindRanges, SentRanges;
    forall k | 0 <= k < |numbers|
      ensures FindRanges(c.books.ranges, s, numbers[k]) == SentRanges(c.past, s, numbers[k])
    {
      var ps := c.books.Get(s).sent;
      assert IsOutstanding(ps, numbers[k]);
      var i :| 0 <= i < |ps| && ps[i].number == numbers[k];
      TrackedRanges(c, s, i);
    }
  }

  /** Reporting packets whose ranges are on record: the streams see the ranges the packets were sent with. */
  lemma TellIsNoted(c: Conn, s: Space, numbers: seq<nat>, acked: bool)
    requires Flows(c.config, StreamEvents(c.past), c.flow) && PathOk(c.config, c.path, c.past)
    requires ActionsOk(c.state, c.actions, c.past)
    requires forall k | 0 <= k < |numbers| ::
             FindRanges(c.books.ranges, s, numbers[k]) == SentRanges(c.past, s, numbers[k])
    ensures var d := TellStreams(c, s, numbers, acked);
            && Flows(d.config, StreamEvents(d.past), d.flow) && PathOk(d.config, d.path, d.past)
            && ActionsOk(d.state, d.actions, d.past) && Led(c, d)
            && Emitted(d.past) == Emitted(c.past) && Reports(d.past) == Reports(c.past) + Tag(s, numbers)
  {
    hide Flows, Emitted, HandedOut, Reports, PathEvents, StreamEvents, ReceivedSince, SentSince, Resolved, RangesOf,
      Tolds, SentRanges, FindRanges, RangeEvents, PV.Run;
    AfterTolds(c.past, s, numbers, acked);
    StreamsAfterTolds(c.past, c.books.ranges, s, numbers, acked);
    FlowsMany(c.config, StreamEvents(c.past), c.flow, RangesOf(c.books.ranges, s, numbers), acked);
  }

  /** A change of state of outstanding packets, and the report of it. */
  lemma RetireAndTell(c: Conn, b: Books, s: Space, numbers: seq<nat>, acked: bool)
    requires Inv(c) && c.state.Active? && b.ranges == c.books.ranges
    requires forall k | 0 <= k < |numbers| :: IsOutstanding(c.books.Get(s).sent, numbers[k])
    requires InOrder(b, Reports(c.past) + Tag(s, numbers), Emitted(c.past))
    ensures Kept(c, TellStreams(c.(books := b), s, numbers, acked))
  {
    hide InOrder, Flows, ActionsOk, PathOk, Tolds, Resolved, RangesOf, FindRanges, SentRanges, IsOutstanding;
    OutstandingRanges(c, s, numbers);
    TellIsNoted(c.(books := b), s, numbers, acked);
  }

  lemma AckTakenKeeps(c: Conn, s: Space, ack: AckFrame, at: int)
    requires Inv(c) && c.state.Active?
    ensures Kept(c, AckTaken(c, s, ack, at)) && AckTaken(c, s, ack, at).state == c.state
  {
    hide Inv, TellStreams, AckApplied, Measured;
    var o := AckApplied(c.books, s, ack);
    var rtt := Measured(c, s, o.acked, ack, at);
    AckInTwoSteps(c, s, ack);
    TellFields(c.(books := o.books), s, o.acked, true);
    TellFields(TellStreams(c.(books := o.books), s, o.acked, true), s, o.lost, false);
    var d := TellStreams(TellStreams(c.(books := o.books), s, o.acked, true), s, o.lost, false);
    TellRtt(c.(books := o.books), rtt, s, o.acked, true);
    TellRtt(TellStreams(c.(books := o.books), s, o.acked, true), rtt, s, o.lost, false);
    OtherFieldsKeep(d, d.(rtt := rtt));
  }

  lemma TellFields(c: Conn, s: Space, numbers: seq<nat>, acked: bool)
    ensures var d := TellStreams(c, s, numbers, acked);
            d == c.(flow := d.flow, past := d.past)
  {
  }

  lemma TellRtt(c: Conn, rtt: Rtt.Estimate, s: Space, numbers: seq<nat>, acked: bool)
    ensures TellStreams(c.(rtt := rtt), s, numbers, acked) == TellStreams(c, s, numbers, acked).(rtt := rtt)
  {
  }

  lemma AckInTwoSteps(c: Conn, s: Space, ack: AckFrame)
    requires Inv(c) && c.state.Active?
    ensures var o := AckApplied(c.books, s, ack);
            Kept(c, TellStreams(TellStreams(c.(books := o.books), s, o.acked, true), s, o.lost, false))
  {
    hide Inv, InOrder, Agree, TellStreams, MarkAll, MarkSent, IsOutstanding, OnAck, FindRanges, SentRanges;
    var b, o := c.books, AckApplied(c.books, s, ack);
    var b1 := WithLargest(b, s, ack.largest);
    var b2 := Retire(b1, s, o.acked, Acknowledged);
    InvMeans(c);
    InvParts(c);
    AckIsTwoRetirements(b, s, ack);
    AckKeepsOrder(b, s, ack, Reports(c.past), Emitted(c.past));
    OutstandingRanges(c, s, o.acked);
    LostRanges(c, b2, s, o.lost);
    var d := TellStreams(c.(books := o.books), s, o.acked, true);
    TellIsNoted(c.(books := o.books), s, o.acked, true);
    TellFields(c.(books := o.books), s, o.acked, true);
    forall k | 0 <= k < |o.lost| {
      SameSentRanges(c.past, d.past, s, o.lost[k]);
    }
    TellIsNoted(d, s, o.lost, false);
    TellFields(d, s, o.lost, false);
    InvFromParts(TellStreams(d, s, o.lost, false));
  }

  lemma InvParts(c: Conn)
    requires Inv(c)
    ensures InOrder(c.books, Reports(c.past), Emitted(c.past)) && ActionsOk(c.state, c.actions, c.past)
    ensures PathOk(c.config, c.path, c.past) && Flows(c.config, StreamEvents(c.past), c.flow)
  {
  }

  lemma InvFromParts(c: Conn)
    requires InOrder(c.books, Reports(c.past), Emitted(c.past)) && ActionsOk(c.state, c.actions, c.past)
    requires PathOk(c.config, c.path, c.past) && Flows(c.config, StreamEvents(c.past), c.flow)
    requires c.state.Active? || NoRecords(c.books)
    ensures Inv(c)
  {
  }

  /** Packets that are outstanding after some others were acknowledged were on record before. */
  lemma LostRanges(c: Conn, b2: Books, s: Space, lost: seq<nat>)
    requires Inv(c)
    requires |b2.Get(s).sent| == |c.books.Get(s).sent|
    requires forall i | 0 <= i < |b2.Get(s).sent| :: b2.Get(s).sent[i].number == c.books.Get(s).sent[i].number
    requires forall k | 0 <= k < |lost| :: IsOutstanding(b2.Get(s).sent, lost[k])
    ensures forall k | 0 <= k < |lost| :: FindRanges(c.books.ranges, s, lost[k]) == SentRanges(c.past, s, lost[k])
  {
    hide Inv, FindRanges, SentRanges;
    forall k | 0 <= k < |lost|
      ensures FindRanges(c.books.ranges, s, lost[k]) == SentRanges(c.past, s, lost[k])
    {
      var ps := b2.Get(s).sent;
      assert IsOutstanding(ps, lost[k]);
      var i :| 0 <= i < |ps| && ps[i].number == lost[k];
      TrackedRanges(c, s, i);
    }
  }

  lemma {:induction false} AckFramesKeep(c: Conn, s: Space, frames: seq<Frame>, at: int)
    requires Inv(c) && c.state.Active?
    ensures Kept(c, AckFrames(c, s, frames, at)) && AckFrames(c, s, frames, at).state == c.state
  {
    hide Inv, AckTaken;
    if frames != [] {
      var n := |frames| - 1;
      AckFramesKeep(c, s, frames[..n], at);
      if frames[n].Ack? {
        AckTakenKeeps(AckFrames(c, s, frames[..n], at), s, frames[n].ack, at);
      }
    }
  }

  lemma {:induction false} PathFramesKeep(c: Conn, frames: seq<Frame>)
    requires Inv(c)
    ensures Kept(c, PathFrames(c, frames)) && PathFrames(c, frames).state == c.state
  {
    hide Inv, PathStep, Enqueue;
    if frames != [] {
      var n := |frames| - 1;
      PathFramesKeep(c, frames[..n]);
      var d := PathFrames(c, frames[..n]);
      match frames[n]
      case PathChallenge(data) => EnqueueKeeps(d, AppSpace, [PathResponse(data)]);
      case PathResponse(data) =>
        PathStepKeeps(d, PV.Response(data));
        PathStepState(d, PV.Response(data));
      case _ =>
    }
  }

  /** A call on the sending streams, and the note of it. */
  lemma StreamStepKeeps(c: Conn, flow: FC.Flow, e: FC.Event)
    requires Inv(c) && c.flow.Valid() && flow == FC.Step(c.flow, e).0
    ensures Kept(c, c.(flow := flow, past := c.past + [OnStreams(e)]))
  {
    hide InOrder, Flows, Emitted, HandedOut, Reports, PathEvents, StreamEvents, ReceivedSince, SentSince, NoRecords,
      PV.Run, FC.Step, FC.Flow.Valid;
    var m := OnStreams(e);
    EmittedNext(c.past, m);
    ReportsNext(c.past, m);
    PathNext(c.past, m);
    StreamNext(c.past, m);
    assert Emitted(c.past) + [] == Emitted(c.past) && HandedOut(c.past) + [] == HandedOut(c.past);
    assert Reports(c.past) + [] == Reports(c.past) && PathEvents(c.past) + [] == PathEvents(c.past);
    FlowsNext(c.config, StreamEvents(c.past), c.flow, e);
  }

  lemma {:induction false} CreditFramesKeep(c: Conn, frames: seq<WireFrame>)
    requires Inv(c)
    ensures Kept(c, CreditFrames(c, frames)) && CreditFrames(c, frames).state == c.state
  {
    hide Inv, FC.RaiseStreamData, FC.RaiseData, FC.RaiseStreams, FC.Flow.Valid;
    if frames != [] {
      var n := |frames| - 1;
      CreditFramesKeep(c, frames[..n]);
      var d := CreditFrames(c, frames[..n]);
      InvMeans(d);
      match frames[n]
      case MaxStreamData(id, maximum) =>
        StreamStepKeeps(d, FC.RaiseStreamData(d.flow, id, maximum), FC.StreamDataGrant(id, maximum));
      case MaxData(maximum) => StreamStepKeeps(d, FC.RaiseData(d.flow, maximum), FC.DataGrant(maximum));
      case MaxStreams(direction, maximum) =>
        StreamStepKeeps(d, FC.RaiseStreams(d.flow, direction, maximum), FC.StreamsGrant(direction, maximum));
      case _ =>
    }
  }

  lemma {:induction false} StopFramesKeep(c: Conn, frames: seq<Frame>)
    requires Inv(c)
    ensures Kept(c, StopFrames(c, frames)) && StopFrames(c, frames).state == c.state
  {
    hide Inv, FC.Halt, FC.Flow.Valid;
    if frames != [] {
      var n := |frames| - 1;
      var f := frames[n];
      StopFramesKeep(c, frames[..n]);
      var d := StopFrames(c, frames[..n]);
      InvMeans(d);
      if f.StopSending? {
        StreamStepKeeps(d, FC.Halt(d.flow, f.streamId, f.errorCode), FC.Halted(f.streamId, f.errorCode));
      }
    }
  }

  // ---------------------------------------------------------------- packets

  lemma RecordedKeeps(c: Conn, p: Parsed, retired: seq<nat>, at: int)
    requires Inv(c) && c.state.Active?
    ensures Kept(c, Recorded(c, p, retired, at)) && Recorded(c, p, retired, at).state == c.state
  {
    hide Inv, Enqueue, PathFrames, AckFrames, CreditFrames;
    EnqueueKeeps(c, AppSpace, Retirements(retired));
    var c1 := RetirementsQueued(c, retired);
    PathFramesKeep(c1, p.frames);
    var c2 := PathFrames(c1, p.frames);
    AckFramesKeep(c2, p.space, p.frames, at);
    CreditFramesKeep(AckFrames(c2, p.space, p.frames, at), p.frames);
  }

  lemma DeliveredKeeps(c: Conn, p: Parsed, at: int, env: PacketEnv)
    requires Inv(c) && c.state.Active?
    ensures var d := Delivered(c, p, at, env); Kept(c, d) && (d.state.Active? || d.state.Closing?)
  {
    hide Inv, StopFrames, Refreshed, AllCleared, FirstReset, FirstCrypto, HasCrypto, StreamRefused;
    var c1 := ControlTaken(c, p.frames, env.refused);
    StopFramesKeep(c, p.frames[..FirstReset(p.frames, env.refused, 0)]);
    ToClosingKeeps(c1, at);
    var c2 := CryptoTaken(c1, p.frames, env.before, env.refused);
    OtherFieldsKeep(c1, c2);
    ToClosingKeeps(c2, at);
    var c3 := Refreshed(c2, env.after);
    RefreshedKeeps(c2, env.after);
    ToClosingKeeps(c3, at);
    ActKeeps(c3, PacketEvent(p.space, p.number));
  }

  lemma FramesTakenKeeps(c: Conn, p: Parsed, at: int, env: PacketEnv)
    requires Inv(c) && c.state.Active?
    ensures var d := FramesTaken(c, p, at, env); Kept(c, d) && !d.state.Closed?
  {
    hide Inv, AllAllowed, PeerCloses, Recorded, Delivered, AllCleared;
    ToClosingKeeps(c, at);
    ToDrainingKeeps(c, at);
    if env.retired.Some? {
      RecordedKeeps(c, p, env.retired.value, at);
      DeliveredKeeps(Recorded(c, p, env.retired.value, at), p, at, env);
    }
  }

  lemma CountReceivedKeeps(c: Conn, size: u64, at: int)
    requires Inv(c)
    ensures Kept(c, CountReceived(c, size, at)) && CountReceived(c, size, at).state == c.state
  {
    hide Inv, PathStep;
    var d := PathStep(c, PV.Arrival(size));
    PathStepKeeps(c, PV.Arrival(size));
    PathStepState(c, PV.Arrival(size));
    OtherFieldsKeep(d, d.(lastActivity := Some(at)));
  }

  lemma ProcessedKeeps(c: Conn, p: Parsed, from: Endpoint, size: u64, at: int, env: PacketEnv)
    requires Inv(c) && c.state.Active?
    ensures Kept(c, Processed(c, p, from, size, at, env)) && !Processed(c, p, from, size, at, env).state.Closed?
  {
    hide Inv, PeerMet, FramesTaken, CountReceived, WithReceived;
    var c0 := Noticed(c, p.space, p.number);
    ReceivedKeeps(c, p.space, p.number);
    PeerMetKeeps(c0, from, at, env.token, env.before);
    var c1 := PeerMet(c0, from, at, env.token, env.before);
    if c1.state.Active? {
      CountReceivedKeeps(c1, size, at);
      FramesTakenKeeps(CountReceived(c1, size, at), p, at, env);
    }
  }

  lemma {:induction false} ChunksTakenKeeps(c: Conn, chunks: seq<Chunk>, from: Endpoint, at: int)
    requires Inv(c) && c.state.Active?
    ensures Kept(c, ChunksTaken(c, chunks, from, at)) && !ChunksTaken(c, chunks, from, at).state.Closed?
    decreases chunks
  {
    hide Inv, Processed, ClearedSpace, AllCleared;
    if chunks != [] {
      match chunks[0]
      case LongPacket(space, size, parsed, env) =>
        ToClosingKeeps(c, at);
        if c.keys.Discarded(space) {
          ClearedKeeps(c, space);
          ClearedState(c, space);
          ChunksTakenKeeps(ClearedSpace(c, space), chunks[1..], from, at);
        } else if parsed.Some? {
          ProcessedKeeps(c, PacketIn(space, parsed.value), from, size, at, env);
          var d := Processed(c, PacketIn(space, parsed.value), from, size, at, env);
          ToClosingKeeps(d, at);
          if d.state.Active? && env.protectorsRefreshed {
            ChunksTakenKeeps(d, chunks[1..], from, at);
          }
        }
      case _ => ToClosingKeeps(c, at);
    }
  }

  lemma ClearedState(c: Conn, s: Space)
    ensures ClearedSpace(c, s).state == c.state
  {
  }

  lemma DatagramTakenKeeps(c: Conn, d: Inbound, from: Endpoint, at: int, tls: Option<Tls>)
    requires Inv(c)
    ensures Kept(c, DatagramTaken(c, d, from, at, tls))
  {
    hide Inv, Refreshed, ChunksTaken, Processed, ClearedSpace, AllCleared;
    if c.state.Active? {
      RefreshedKeeps(c, tls);
      var c1 := Refreshed(c, tls);
      match d
      case LongDatagram(chunks) => ChunksTakenKeeps(c1, chunks, from, at);
      case ShortDatagram(size, parsed, statelessReset, env) =>
        ClearedKeeps(c1, AppSpace);
        ToClosingKeeps(c1, at);
        ToDrainingKeeps(c1, at);
        if parsed.Some? {
          ProcessedKeeps(c1, PacketIn(AppSpace, parsed.value), from, size, at, env);
        }
    }
  }

  // ---------------------------------------------------------------- sending

  lemma DatagramIsNoted(past: seq<Moment>, a: Action)
    requires a.Datagram?
    ensures var next := past + [Did(a)];
            && Emitted(next) == Emitted(past) + [a] && HandedOut(next) == HandedOut(past)
            && Reports(next) == Reports(past)
            && PathEvents(next) == PathEvents(past) + [PV.Departure(a.size)] && StreamEvents(next) == StreamEvents(past)
            && ReceivedSince(next) == ReceivedSince(past) && SentSince(next) == SentSince(past) + a.size
  {
    hide Emitted, HandedOut, Reports, PathEvents, StreamEvents, ReceivedSince, SentSince;
    EmittedNext(past, Did(a));
    ReportsNext(past, Did(a));
    PathNext(past, Did(a));
    StreamNext(past, Did(a));
    assert HandedOut(past) + [] == HandedOut(past) && Reports(past) + [] == Reports(past);
  }

  lemma PacketSentKeeps(c: Conn, s: Space, at: int, frames: seq<Frame>, ackEliciting: bool, size: u64, taken: nat)
    requires Inv(c) && c.state.Active? && taken <= |c.books.Get(s).queue| && PV.Allows(c.path, size)
    ensures var d := PacketSent(c, s, at, frames, ackEliciting, size, taken); Kept(c, d) && d.state == c.state
  {
    hide InOrder, Flows, Emitted, HandedOut, Reports, PathEvents, StreamEvents, ReceivedSince, SentSince, Sent,
      WithQueue, NoRecords, PV.Run, PV.Allows;
    var number, queue := c.books.Get(s).next, c.books.Get(s).queue[taken..];
    var a, reported, log := Datagram(s, number, frames, size), Reports(c.past), Emitted(c.past);
    DatagramIsNoted(c.past, a);
    SendingKeepsOrder(c.books, s, at, ackEliciting, frames, size, reported, log);
    QueueKeepsOrder(Sent(c.books, s, at, ackEliciting, frames), s, queue, reported, log + [a]);
    var start := PV.NewPath(c.config.server, c.config.addressValidated);
    PV.RunGrows(start, PV.Meter(0, 0), PathEvents(c.past), PV.Departure(size));
    assert HandedOut(c.past) + (c.actions + [a]) == HandedOut(c.past) + c.actions + [a];
  }

  lemma SpaceFlushedKeeps(c: Conn, s: Space, at: int, tls: Option<Tls>, env: SendEnv)
    requires Inv(c) && c.state.Active?
    ensures Kept(c, SpaceFlushed(c, s, at, tls, env))
  {
    hide Inv, ClearedSpace, AllCleared, PacketSent, PayloadBudget.Front, PayloadBudget.Sound, PV.Allows, SendAllowed,
      AckEliciting;
    var queue := c.books.Get(s).queue;
    ClearedKeeps(c, s);
    ToClosingKeeps(c, at);
    OtherFieldsKeep(c, c);
    if env.assembled.Some? && PV.Allows(c.path, env.assembled.value) {
      var taken := PayloadBudget.Front(queue, c.config.maxPayload);
      var frames := queue[..taken];
      PacketSentKeeps(c, s, at, frames, AckEliciting(frames), env.assembled.value, taken);
      var d := PacketSent(c, s, at, frames, AckEliciting(frames), env.assembled.value, taken);
      OtherFieldsKeep(d, d.(lastActivity := Some(at)));
    }
  }

  lemma SpacesFlushedKeeps(c: Conn, at: int, env: FlushEnv)
    requires Inv(c)
    ensures Kept(c, SpacesFlushed(c, at, env))
  {
    hide Inv, SpaceFlushed;
    OtherFieldsKeep(c, c);
    if c.state.Active? {
      var c1 := SpaceFlushed(c, InitialSpace, at, env.after, env.initial);
      SpaceFlushedKeeps(c, InitialSpace, at, env.after, env.initial);
      if c1.state.Active? {
        var c2 := SpaceFlushed(c1, HandshakeSpace, at, env.after, env.handshake);
        SpaceFlushedKeeps(c1, HandshakeSpace, at, env.after, env.handshake);
        if c2.state.Active? {
          SpaceFlushedKeeps(c2, AppSpace, at, env.after, env.application);
        }
      }
    }
  }

  lemma {:induction false} ItemsPumpedKeep(c: Conn, items: seq<CryptoItem>, clock: int)
    requires Inv(c)
    ensures Kept(c, ItemsPumped(c, items, clock))
    decreases items
  {
    hide Inv, Enqueue, AllCleared;
    OtherFieldsKeep(c, c);
    if items != [] {
      if c.keys.Discarded(items[0].space) {
        ItemsPumpedKeep(c, items[1..], clock);
      } else if items[0].frames.None? {
        ToClosingKeeps(c, clock);
      } else {
        EnqueueKeeps(c, items[0].space, items[0].frames.value);
        ItemsPumpedKeep(c.(books := Enqueue(c.books, items[0].space, items[0].frames.value)), items[1..], clock);
      }
    }
  }

  lemma PumpedKeeps(c: Conn, pump: Pump, clock: int)
    requires Inv(c)
    ensures Kept(c, Pumped(c, pump, clock))
  {
    hide Inv, ItemsPumped, AllCleared;
    OtherFieldsKeep(c, c);
    ToClosingKeeps(c, clock);
    OtherFieldsKeep(c, c.(dirty := true));
    if pump.Drained? {
      ItemsPumpedKeep(c.(dirty := true), pump.items, clock);
    }
  }

  lemma FlushedKeeps(c: Conn, at: int, env: FlushEnv)
    requires Inv(c)
    ensures Kept(c, Flushed(c, at, env))
  {
    hide Inv, Refreshed, Pumped, SpacesFlushed;
    OtherFieldsKeep(c, c);
    if c.state.Active? {
      var c1 := Refreshed(c, env.before);
      RefreshedKeeps(c, env.before);
      var c2 := Pumped(c1, env.pump, env.clock);
      PumpedKeeps(c1, env.pump, env.clock);
      RefreshedKeeps(c2, env.after);
      SpacesFlushedKeeps(Refreshed(c2, env.after), at, env);
    }
  }

  lemma AckSentKeeps(c: Conn, s: Space, at: int, tls: Option<Tls>, assembled: Option<u64>)
    requires Inv(c)
    ensures Kept(c, AckSent(c, s, at, tls, assembled))
  {
    hide Inv, Refreshed, ClearedSpace, AllCleared, PacketSent, PV.Allows, AckFor;
    OtherFieldsKeep(c, c);
    if c.state.Active? {
      var c1 := Refreshed(c, tls);
      RefreshedKeeps(c, tls);
      ClearedKeeps(c1, s);
      ToClosingKeeps(c1, at);
      if assembled.Some? && PV.Allows(c1.path, assembled.value) {
        PacketSentKeeps(c1, s, at, [Ack(AckFor(c1.books.Get(s).received))], false, assembled.value, 0);
      }
    }
  }

  // ---------------------------------------------------------------- timers and the rest

  lemma LossesDeclaredKeeps(c: Conn, s: Space, now: int)
    requires Inv(c) && c.state.Active?
    ensures Kept(c, LossesDeclared(c, s, now)) && LossesDeclared(c, s, now).state == c.state
  {
    hide Inv, InOrder, TimerLosses, TellStreams, MarkAll, MarkSent, IsOutstanding, Agree;
    var lossDelay, probe, lost := LossDelayOf(c), ProbeDelayOf(c, s), LossesDue(c, s, now);
    InvMeans(c);
    InvParts(c);
    TimerLossesAreRetirable(c.books, s, lossDelay, probe, now);
    TimerKeepsOrder(c.books, s, lossDelay, probe, now, Reports(c.past), Emitted(c.past));
    RetireAndTell(c, Retire(c.books, s, lost, Lost), s, lost, false);
    TellFields(c.(books := Retire(c.books, s, lost, Lost)), s, lost, false);
  }

  lemma TimerFiredKeeps(c: Conn, s: Space, now: int, tls: Option<Tls>)
    requires Inv(c)
    ensures Kept(c, TimerFired(c, s, now, tls))
  {
    hide Inv, Refreshed, ClearedSpace, LossesDeclared;
    OtherFieldsKeep(c, c);
    if c.state.Active? {
      RefreshedKeeps(c, tls);
      ClearedKeeps(Refreshed(c, tls), s);
      LossesDeclaredKeeps(Refreshed(c, tls), s, now);
    }
  }

  lemma LifecycleFiredKeeps(c: Conn, kind: TimerKind, now: int)
    requires Inv(c)
    ensures Kept(c, LifecycleFired(c, kind, now)) && Kept(c, LifecycleAsked(c, now))
  {
    hide Inv, AllCleared;
    var d := LifecycleAsked(c, now);
    OtherFieldsKeep(c, d);
    if c.state.Active? {
      ToClosingKeeps(d, now);
    } else {
      ToClosedKeeps(d);
    }
  }

  lemma ActionsTakenKeeps(c: Conn)
    requires Inv(c)
    ensures Kept(c, ActionsTaken(c))
  {
    hide InOrder, Flows, Emitted, HandedOut, Reports, PathEvents, StreamEvents, ReceivedSince, SentSince, NoRecords,
      PV.Run;
    HandingIsNoted(c.past, c.actions);
    assert HandedOut(c.past) + c.actions + [] == HandedOut(c.past) + c.actions;
    assert c.actions == [] ==> HandedOut(c.past) + c.actions == HandedOut(c.past);
  }

  lemma HandingIsNoted(past: seq<Moment>, actions: seq<Action>)
    ensures var next := past + [Handed(actions)];
            && Emitted(next) == Emitted(past) && HandedOut(next) == HandedOut(past) + actions
            && Reports(next) == Reports(past)
            && PathEvents(next) == PathEvents(past) && StreamEvents(next) == StreamEvents(past)
            && ReceivedSince(next) == ReceivedSince(past) && SentSince(next) == SentSince(past)
  {
    hide Emitted, HandedOut, Reports, PathEvents, StreamEvents, ReceivedSince, SentSince;
    var m := Handed(actions);
    EmittedNext(past, m);
    ReportsNext(past, m);
    PathNext(past, m);
    StreamNext(past, m);
    assert Emitted(past) + [] == Emitted(past) && Reports(past) + [] == Reports(past);
    assert PathEvents(past) + [] == PathEvents(past);
  }

  lemma StreamCallsKeep(c: Conn, id: u64, data: seq<byte>, ids: seq<nat>, maxFrames: nat, maxSize: nat, limit: u64)
    requires Inv(c) && c.flow.Valid()
    ensures Kept(c, DataAppended(c, id, data)) && Kept(c, Scheduled(c, ids, maxFrames, maxSize))
    ensures Kept(c, DataLimitRaised(c, limit))
  {
    hide Inv, FC.Write, FC.ServeAll, FC.RaiseData, FC.Flow.Valid;
    OtherFieldsKeep(c, c);
    StreamStepKeeps(c, FC.Write(c.flow, id, data), FC.Writing(id, data));
    StreamStepKeeps(c, FC.RaiseData(c.flow, limit), FC.DataGrant(limit));
    FC.ScheduleIsAPass(c.flow, ids, maxFrames, maxSize);
    StreamStepKeeps(c, FC.Schedule(c.flow, ids, maxFrames, maxSize).0, FC.Pass(ids, maxFrames, maxSize));
  }

  /** Every call keeps the invariant, and history only grows. */
  lemma StepKeeps(c: Conn, call: Call)
    requires Inv(c)
    ensures c.flow.Valid() && Kept(c, Step(c, call))
  {
    hide Inv, Flushed, AckSent, DatagramTaken, TimerFired, LifecycleFired, LifecycleAsked, NextTimerAsked,
      SpaceDiscarded, FramesQueued, DataAppended, Scheduled, DataLimitRaised, ActionsTaken, FC.Flow.Valid;
    InvMeans(c);
    match call
    case CallFlush(at, env) => FlushedKeeps(c, at, env);
    case CallAcknowledge(space, at, tls, assembled) => AckSentKeeps(c, space, at, tls, assembled);
    case CallDatagram(inbound, from, at, tls) => DatagramTakenKeeps(c, inbound, from, at, tls);
    case CallRecoveryTimer(space, at, tls) => TimerFiredKeeps(c, space, at, tls);
    case CallLifecycleTimer(kind, at) => LifecycleFiredKeeps(c, kind, at);
    case CallNextRecoveryTimer(tls) => SmallCallsKeep(c, tls, InitialSpace, []);
    case CallNextLifecycleTimer(at) => LifecycleFiredKeeps(c, IdleTimer, at);
    case CallDiscard(space) => SmallCallsKeep(c, None, space, []);
    case CallQueue(space, frames) => SmallCallsKeep(c, None, space, frames);
    case CallAppend(id, data) => StreamCallsKeep(c, id, data, [], 0, 0, 0);
    case CallSchedule(ids, maxFrames, maxSize) => StreamCallsKeep(c, 0, [], ids, maxFrames, maxSize, 0);
    case CallMaxData(limit) => StreamCallsKeep(c, 0, [], [], 0, 0, limit);
    case CallRttSample(sample) => OtherFieldsKeep(c, c.(rtt := Rtt.Update(c.rtt, sample)));
    case CallDrain => ActionsTakenKeeps(c);
  }

  lemma SmallCallsKeep(c: Conn, tls: Option<Tls>, s: Space, frames: seq<Frame>)
    requires Inv(c)
    ensures Kept(c, NextTimerAsked(c, tls)) && Kept(c, SpaceDiscarded(c, s)) && Kept(c, FramesQueued(c, s, frames))
  {
    hide Inv, Refreshed, ClearedSpace, WithQueue;
    OtherFieldsKeep(c, c);
    RefreshedKeeps(c, tls);
    QueueKeeps(c, s, frames);
    OtherFieldsKeep(c, c.(keys := c.keys.Discard(s)));
    ClearedKeeps(c.(keys := c.keys.Discard(s)), s);
  }
}
