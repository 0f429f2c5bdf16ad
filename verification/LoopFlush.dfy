/** One flush: what it gathers, which spaces it sends for and in which order, and the calls that only note something. */
module LoopFlush {
  import opened Common
  import opened Frames
  import opened LoopClosing
  import opened LoopHistory
  import opened LoopMeaning
  import opened LoopOutcomes
  import opened LoopSpec
  import opened LoopState
  import opened Recovery
  import opened SentRecords
  import FC = FlowControl
  import PayloadBudget
  import PV = PathValidation
  import RM = RecoveryMeaning

  // ---------------------------------------------------------------- the three spaces in turn

  ghost function EnvFor(env: FlushEnv, s: Space): SendEnv {
    match s
    case InitialSpace => env.initial
    case HandshakeSpace => env.handshake
    case AppSpace => env.application
  }

  /** The space has something to send, and nothing but the size of the datagram can hold it back. */
  ghost predicate Ready(c: Conn, s: Space, env: SendEnv) {
    && c.books.Get(s).queue != [] && !Gone(c.keys, s)
    && env.canSend && (s == AppSpace ==> env.pacingAllows)
  }

  ghost predicate Sends(log: seq<Action>, s: Space) {
    exists i :: 0 <= i < |log| && log[i].Datagram? && log[i].space == s
  }

  /**
   * Datagrams of different spaces, Initial before Handshake before application data, and at most a close behind them.
   */
  ghost predicate InPlace(log: seq<Action>) {
    && (forall i | 0 <= i < |log| :: log[i].Datagram? || (log[i].Close? && i == |log| - 1))
    && (forall i, j | 0 <= i < j < |log| && log[j].Datagram? :: Place(log[i].space) < Place(log[j].space))
  }

  /** One space's part: the other spaces and the keys are untouched, and one datagram leaves or none. */
  ghost predicate Turn(c: Conn, d: Conn, s: Space, env: SendEnv, added: seq<Action>) {
    && d.actions == c.actions + added && |added| <= 1 && (d.state.Active? || d.state.Closing?)
    && (d.state.Closing? ==> added == [Close])
    && (d.state.Active? && added != [] ==> added[0].Datagram? && added[0].space == s)
    && (d.state.Active? ==>
          && d.keys == c.keys && (forall t | t != s :: d.books.Get(t).queue == c.books.Get(t).queue)
          && (added != [] ==>
                Ready(c, s, env) && env.assembled.Some? && d.path == PV.Emitted(c.path, env.assembled.value))
          && (added == [] ==> d.path == c.path)
          && (added == [] && Ready(c, s, env) ==> env.assembled.Some? && !PV.Allows(c.path, env.assembled.value)))
  }

  lemma SpaceTakesItsTurn(c: Conn, s: Space, at: int, tls: Option<Tls>, env: SendEnv) returns (added: seq<Action>)
    requires c.state.Active?
    ensures Turn(c, SpaceFlushed(c, s, at, tls, env), s, env, added)
  {
    hide SpaceFlushed, Unsendable, PV.Allows, PV.Emitted, RM.AreStreamRanges, Cleared;
    var d := SpaceFlushed(c, s, at, tls, env);
    WhenAPacketLeaves(c, s, at, tls, env);
    WhatLeaves(c, s, at, tls, env);
    var places := LeavingIsRecorded(c, s, at, tls, env);
    TurnKeeps(c, s, at, tls, env);
    UnsendableWithoutSize(c, s, tls, env);
    forall t | t != s
      ensures ClearedSpace(c, s).books.Get(t) == c.books.Get(t)
    {
      ClearingIsLocal(c, s, t);
    }
    if d.state.Closing? {
      added := [Close];
    } else if d.actions == c.actions {
      added := [];
      assert c.actions + [] == c.actions;
    } else {
      added := [d.actions[|c.actions|]];
    }
  }

  lemma UnsendableWithoutSize(c: Conn, s: Space, tls: Option<Tls>, env: SendEnv)
    ensures c.books.Get(s).queue != [] && env.assembled.None? ==> Unsendable(c, s, tls, env)
  {
  }

  lemma TurnKeeps(c: Conn, s: Space, at: int, tls: Option<Tls>, env: SendEnv)
    requires c.state.Active?
    ensures var d := SpaceFlushed(c, s, at, tls, env);
            && (d.state.Closing? ==> d.actions == c.actions + [Close])
            && (d.state.Active? ==> d.keys == c.keys)
            && (d.state.Active? && d.actions == c.actions ==> d == c || d == ClearedSpace(c, s))
  {
    hide HeldBack, Sendable, PV.Allows, AllCleared, Cleared, AckEliciting, PayloadBudget.Front, PacketSent;
    SendableMeans(c, s, tls, env);
    var queue := c.books.Get(s).queue;
    PayloadBudget.FrontIsLongest(queue, c.config.maxPayload);
    if env.assembled.Some? {
      var taken := PayloadBudget.Front(queue, c.config.maxPayload);
      SendingActs(c, s, at, queue[..taken], AckEliciting(queue[..taken]), env.assembled.value, taken);
    }
  }

  lemma ClearingIsLocal(c: Conn, s: Space, t: Space)
    requires t != s
    ensures ClearedSpace(c, s).books.Get(t) == c.books.Get(t)
  {
    hide Keep, KeepRanges;
  }

  /** What more is sent only lowers what may be sent. */
  lemma LimitTightens(p: PV.Path, size: u64, other: u64)
    ensures PV.Allows(PV.Emitted(p, size), other) ==> PV.Allows(p, other)
  {
  }

  /** The datagrams added, in order; the connection closed, or every space had its turn. */
  ghost predicate Served(c: Conn, d: Conn, env: FlushEnv, added: seq<Action>) {
    && d.actions == c.actions + added && InPlace(added) && (d.state.Active? || d.state.Closing?)
    && (d.state.Closing? <==> added != [] && added[|added| - 1] == Close)
    && (d.state.Active? ==> EachHadItsTurn(c, d.path, env, added))
  }

  ghost predicate EachHadItsTurn(c: Conn, path: PV.Path, env: FlushEnv, added: seq<Action>) {
    forall s ::
      && (Sends(added, s) ==> Ready(c, s, EnvFor(env, s)))
      && (Ready(c, s, EnvFor(env, s)) ==>
            && EnvFor(env, s).assembled.Some?
            && (Sends(added, s) || !PV.Allows(path, EnvFor(env, s).assembled.value)))
  }

  /**
   * A flush over the spaces sends at most one datagram for each, Initial first and application data last. Unless the
   * connection closes, a space that is ready has its datagram sent, except where the amplification limit forbids it
   * even afterwards, and a space that is not ready has none sent.
   */
  lemma FlushServesEverySpace(c: Conn, at: int, env: FlushEnv) returns (added: seq<Action>)
    requires c.state.Active?
    ensures Served(c, SpacesFlushed(c, at, env), env, added)
  {
    hide SpaceFlushed, Turn, Served;
    var a := SpaceTakesItsTurn(c, InitialSpace, at, env.after, env.initial);
    var c1 := SpaceFlushed(c, InitialSpace, at, env.after, env.initial);
    TurnAdds(c, c1, InitialSpace, env.initial, a);
    if !c1.state.Active? {
      added := a;
      assert [] + a == a && c.actions + [] == c.actions;
      ClosesInTurn(c, c1, env, [], a);
    } else {
      var b := SpaceTakesItsTurn(c1, HandshakeSpace, at, env.after, env.handshake);
      var c2 := SpaceFlushed(c1, HandshakeSpace, at, env.after, env.handshake);
      TurnAdds(c1, c2, HandshakeSpace, env.handshake, b);
      if !c2.state.Active? {
        added := a + b;
        ClosesInTurn(c, c2, env, a, b);
      } else {
        added := AppHasItsTurn(c, c1, c2, at, env, a, b);
      }
    }
  }

  lemma AppHasItsTurn(c: Conn, c1: Conn, c2: Conn, at: int, env: FlushEnv, a: seq<Action>, b: seq<Action>)
    returns (added: seq<Action>)
    requires c.state.Active? && c1.state.Active? && c2.state.Active?
    requires Turn(c, c1, InitialSpace, env.initial, a) && Turn(c1, c2, HandshakeSpace, env.handshake, b)
    ensures Served(c, SpaceFlushed(c2, AppSpace, at, env.after, env.application), env, added)
  {
    hide SpaceFlushed, Turn, Served, EachHadItsTurn, InPlace, IsTurn, IsFront;
    TurnAdds(c, c1, InitialSpace, env.initial, a);
    TurnAdds(c1, c2, HandshakeSpace, env.handshake, b);
    var e := SpaceTakesItsTurn(c2, AppSpace, at, env.after, env.application);
    var d := SpaceFlushed(c2, AppSpace, at, env.after, env.application);
    TurnAdds(c2, d, AppSpace, env.application, e);
    var front := a + b;
    TwoInPlace(a, b);
    assert c2.actions == c.actions + front;
    added := front + e;
    if d.state.Active? {
      AllThree(c, c1, c2, at, env, a, b, e);
      AllServed(c, d, env, front, e);
    } else {
      ClosesInTurn(c, d, env, front, e);
    }
  }

  /** What the first two spaces have added if the connection is still open. */
  ghost predicate IsFront(log: seq<Action>) {
    InPlace(log) && forall i | 0 <= i < |log| :: log[i].Datagram? && log[i].space != AppSpace
  }

  lemma TwoInPlace(a: seq<Action>, b: seq<Action>)
    requires IsTurn(a, InitialSpace, false) && IsTurn(b, HandshakeSpace, false)
    ensures IsFront(a + b)
  {
  }

  lemma ClosesInTurn(c: Conn, d: Conn, env: FlushEnv, before: seq<Action>, last: seq<Action>)
    requires d.state.Closing? && IsTurn(last, AppSpace, true) && d.actions == c.actions + before + last
    requires IsFront(before)
    ensures Served(c, d, env, before + last)
  {
    hide EachHadItsTurn;
    OneMoreInPlace(before, last);
    assert d.actions == c.actions + (before + last);
  }

  lemma AllServed(c: Conn, d: Conn, env: FlushEnv, before: seq<Action>, last: seq<Action>)
    requires d.state.Active? && d.actions == c.actions + before + last
    requires IsFront(before) && IsTurn(last, AppSpace, false)
    requires EachHadItsTurn(c, d.path, env, before + last)
    ensures Served(c, d, env, before + last)
  {
    hide EachHadItsTurn;
    OneMoreInPlace(before, last);
    assert d.actions == c.actions + (before + last);
  }

  /** What a turn adds, if anything: a datagram of the space, or the close. */
  ghost predicate IsTurn(added: seq<Action>, s: Space, closing: bool) {
    && |added| <= 1 && (closing ==> added == [Close])
    && (!closing && added != [] ==> added[0].Datagram? && added[0].space == s)
  }

  lemma TurnAdds(c: Conn, d: Conn, s: Space, env: SendEnv, added: seq<Action>)
    requires Turn(c, d, s, env, added)
    ensures d.actions == c.actions + added && IsTurn(added, s, d.state.Closing?)
    ensures d.state.Active? || d.state.Closing?
  {
    hide Ready, PV.Allows, PV.Emitted;
  }

  lemma OneMoreInPlace(a: seq<Action>, b: seq<Action>)
    requires InPlace(a) && (forall i | 0 <= i < |a| :: a[i].Datagram?)
    requires |b| <= 1
    requires b != [] && !b[0].Close? ==>
               b[0].Datagram? && forall i | 0 <= i < |a| :: Place(a[i].space) < Place(b[0].space)
    ensures InPlace(a + b)
  {
  }

  lemma AllThree(
    c: Conn, c1: Conn, c2: Conn, at: int, env: FlushEnv, a: seq<Action>, b: seq<Action>, e: seq<Action>)
    requires c.state.Active? && c1.state.Active? && c2.state.Active?
    requires var d := SpaceFlushed(c2, AppSpace, at, env.after, env.application);
             && d.state.Active? && Turn(c, c1, InitialSpace, env.initial, a)
             && Turn(c1, c2, HandshakeSpace, env.handshake, b) && Turn(c2, d, AppSpace, env.application, e)
    ensures EachHadItsTurn(c, SpaceFlushed(c2, AppSpace, at, env.after, env.application).path, env, a + b + e)
  {
    hide SpaceFlushed, PV.Allows, PV.Emitted;
    var d := SpaceFlushed(c2, AppSpace, at, env.after, env.application);
    forall s
      ensures Sends(a + b + e, s) <==> Sends(if s == InitialSpace then a else if s == HandshakeSpace then b else e, s)
    {
      SendsConcat(a + b, e, s);
      SendsConcat(a, b, s);
    }
    forall s | Ready(c, s, EnvFor(env, s)) && !Sends(a + b + e, s)
      ensures EnvFor(env, s).assembled.Some? && !PV.Allows(d.path, EnvFor(env, s).assembled.value)
    {
      StillForbidden(c, c1, c2, d, env, a, b, e, s);
    }
  }

  lemma SendsConcat(a: seq<Action>, b: seq<Action>, s: Space)
    ensures Sends(a + b, s) <==> Sends(a, s) || Sends(b, s)
  {
    if Sends(a, s) {
      var i :| 0 <= i < |a| && a[i].Datagram? && a[i].space == s;
      assert (a + b)[i] == a[i];
    }
    if Sends(b, s) {
      var i :| 0 <= i < |b| && b[i].Datagram? && b[i].space == s;
      assert (a + b)[|a| + i] == b[i];
    }
  }

  lemma SendsIfAny(q: seq<Action>, s: Space)
    requires |q| <= 1 && (q != [] ==> q[0].Datagram? && q[0].space == s)
    ensures Sends(q, s) <==> q != []
  {
  }

  lemma StillForbidden(
    c: Conn, c1: Conn, c2: Conn, d: Conn, env: FlushEnv, a: seq<Action>, b: seq<Action>, e: seq<Action>, s: Space)
    requires c1.state.Active? && c2.state.Active? && d.state.Active?
    requires Turn(c, c1, InitialSpace, env.initial, a) && Turn(c1, c2, HandshakeSpace, env.handshake, b)
    requires Turn(c2, d, AppSpace, env.application, e)
    requires Ready(c, s, EnvFor(env, s))
    requires !Sends(if s == InitialSpace then a else if s == HandshakeSpace then b else e, s)
    ensures EnvFor(env, s).assembled.Some? && !PV.Allows(d.path, EnvFor(env, s).assembled.value)
  {
    hide PV.Allows, PV.Emitted;
    var q := if s == InitialSpace then a else if s == HandshakeSpace then b else e;
    SendsIfAny(q, s);
    var size := EnvFor(env, s).assembled.value;
    if b != [] {
      LimitTightens(c1.path, env.handshake.assembled.value, size);
    }
    if e != [] {
      LimitTightens(c2.path, env.application.assembled.value, size);
    }
  }

  // ---------------------------------------------------------------- what a flush gathers first

  /** TLS has reported since the last look, or been pumped, and has keys of the kind. */
  ghost function KeysAfter(c: Conn, env: FlushEnv): Keys {
    var first, second := c.dirty && env.before.Some?, env.pump.Drained? && env.after.Some?;
    Keys(
      c.keys.initialGone || (first && env.before.value.handshakeKeys) || (second && env.after.value.handshakeKeys),
      c.keys.handshakeGone, c.keys.appGone,
      c.keys.oneRttSend || (first && env.before.value.applicationKeys) || (second && env.after.value.applicationKeys))
  }

  /** The challenge for the peer's address, where it is due before or after TLS is pumped. */
  ghost function DueChallenge(c: Conn, keys: Keys, tls: Option<Tls>, s: Space): seq<Frame> {
    if s == AppSpace && ChallengeIsDue(c, keys, tls) then [PathChallenge(c.path.pending.value)] else []
  }

  /**
   * A flush in which TLS does not fail: before any space has its turn, the keys are up to date, and the queue of each
   * space whose keys remain holds what it held, the challenge if it was due, what TLS handed out for the space, and the
   * challenge if only that made it due.
   */
  lemma FlushGathers(c: Conn, at: int, env: FlushEnv) returns (e: Conn)
    requires c.state.Active? && !PumpFails(c, env)
    ensures Flushed(c, at, env) == SpacesFlushed(e, at, env)
    ensures e.state.Active? && e.actions == c.actions && e.keys == KeysAfter(c, env) && e.flow == c.flow && !e.dirty
    ensures forall s | !Gone(e.keys, s) ::
              e.books.Get(s) == c.books.Get(s).(
                queue := c.books.Get(s).queue + DueChallenge(c, Refreshed(c, env.before).keys, env.before, s)
                         + (if env.pump.Drained? then Offered(env.pump.items, s) else [])
                         + DueChallenge(Refreshed(c, env.before), e.keys, env.after, s))
  {
    hide Refreshed, SpacesFlushed, Pumped, Offered, ChallengeIsDue, Overflows;
    RefreshedExactly(c, env.before);
    var c1 := Refreshed(c, env.before);
    WhenPumpingCloses(c1, env.pump, env.clock);
    var c2 := Pumped(c1, env.pump, env.clock);
    PumpedQueues(c1, env.pump, env.clock);
    RefreshedExactly(c2, env.after);
    DueIsByPath(c1, c2, env.after);
    e := Refreshed(c2, env.after);
    assert forall q: seq<Frame> :: q + [] == q;
  }

  /** Whether the challenge is due depends on the path alone. */
  lemma DueIsByPath(c: Conn, d: Conn, tls: Option<Tls>)
    requires d.path == c.path
    ensures forall keys :: ChallengeIsDue(c, keys, tls) <==> ChallengeIsDue(d, keys, tls)
  {
  }

  lemma PumpedQueues(c: Conn, pump: Pump, clock: int)
    requires c.state.Active?
    ensures var d := Pumped(c, pump, clock);
            d.state.Active? ==>
              && d == c.(books := d.books, dirty := c.dirty || pump.Drained?)
              && forall s :: d.books.Get(s) == c.books.Get(s).(
                   queue := c.books.Get(s).queue
                            + if pump.Drained? && !Gone(c.keys, s) then Offered(pump.items, s) else [])
  {
    hide ItemsPumped, AllCleared, Offered;
    assert forall q: seq<Frame> :: q + [] == q;
    if pump.Drained? {
      PumpingQueues(c.(dirty := true), pump.items, clock);
    }
  }

  // ---------------------------------------------------------------- calls that only note something

  /**
   * The small calls: queued frames take the place of what the queue held; a discarded space is empty and its keys are
   * gone for good; what drivers and streams are told is in the history, and nothing else changes.
   */
  lemma SmallCallsExactly(c: Conn, call: Call)
    requires c.flow.Valid()
    ensures var d := Step(c, call);
            && (call.CallQueue? ==>
                  && d == c.(books := d.books)
                  && d.books.recovery == c.books.recovery && d.books.ranges == c.books.ranges
                  && forall s ::
                       var queued := s == call.space && c.state.Active?;
                       d.books.Get(s) == if queued then c.books.Get(s).(queue := call.frames) else c.books.Get(s))
            && (call.CallDiscard? ==>
                  && d == c.(books := d.books, keys := d.keys) && d.keys.oneRttSend == c.keys.oneRttSend
                  && forall s ::
                       && (Gone(d.keys, s) <==> s == call.space || Gone(c.keys, s))
                       && if s == call.space then IsEmpty(d.books.Get(s)) && d.books.Get(s).next == c.books.Get(s).next
                          else d.books.Get(s) == c.books.Get(s))
            && (call.CallDrain? ==> d == c.(actions := [], past := c.past + [Handed(c.actions)]))
            && (call.CallMaxData? ==> d == c.(flow := d.flow, past := c.past + [OnStreams(FC.DataGrant(call.limit))]))
            && (call.CallAppend? ==>
                  d == c.(flow := d.flow, past := c.past +
                            if c.state.Active? then [OnStreams(FC.Writing(call.id, call.data))] else []))
            && (call.CallSchedule? ==>
                  d == c.(flow := d.flow, past := c.past +
                            if c.state.Active?
                            then [OnStreams(FC.Pass(call.ids, call.maxFrames, call.maxSize))] else []))
  {
    hide Keep, KeepRanges, FC.Flow.Valid, FC.Schedule, FC.Write, FC.RaiseData, Flushed, AckSent, DatagramTaken,
      TimerFired, LifecycleFired, NextTimerAsked, LifecycleAsked;
    assert c.past + [] == c.past;
  }
}
